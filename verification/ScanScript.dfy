/**
 Scan scripts (jcmaster.c, jcparam.c): which progressive scripts are accepted,
 what an accepted script sends, and the recommended script.
 */
module ScanScript {

  const MAX_COMPS_IN_SCAN := 4
  const DCTSIZE2 := 64

  /** One entry of a script: component indexes, band, and bit positions before and after. */
  datatype ScanInfo = ScanInfo(comps: seq<int>, ss: int, se: int, ah: int, al: int)

  /** Per component and coefficient: the last bit position sent, or -1. */
  type History = h: seq<seq<int>> | forall c :: 0 <= c < |h| ==> |h[c]| == DCTSIZE2
    witness []

  function NothingSent(n: nat): History {
    seq(n, c => seq(DCTSIZE2, k => -1))
  }

  predicate CompsOk(s: ScanInfo, n: nat) {
    && 1 <= |s.comps| <= MAX_COMPS_IN_SCAN
    && (forall i :: 0 <= i < |s.comps| ==> 0 <= s.comps[i] < n)
    && (forall i :: 1 <= i < |s.comps| ==> s.comps[i - 1] < s.comps[i])
  }

  /** Largest bit position allowed, by data precision. */
  function MaxAl(precision: int): int {
    if precision > 8 then 13 else 10
  }

  predicate ParamsOk(s: ScanInfo, maxAl: int) {
    && 0 <= s.ss <= s.se < DCTSIZE2 && 0 <= s.ah <= maxAl && 0 <= s.al <= maxAl
    && (if s.ss == 0 then s.se == 0 else |s.comps| == 1)
  }

  /** A coefficient is sent first from bit 0 up to `al`, then one bit at a time downward. */
  predicate NextBitOk(s: ScanInfo, last: int) {
    if last < 0 then s.ah == 0 else s.ah == last && s.al == s.ah - 1
  }

  predicate CompHistoryOk(h: History, s: ScanInfo, c: int)
    requires 0 <= c < |h|
  {
    && (s.ss != 0 ==> h[c][0] >= 0)
    && (forall k :: 0 <= k < DCTSIZE2 && s.ss <= k <= s.se ==> NextBitOk(s, h[c][k]))
  }

  predicate ScanOk(h: History, s: ScanInfo, maxAl: int) {
    && CompsOk(s, |h|) && ParamsOk(s, maxAl)
    && (forall i :: 0 <= i < |s.comps| ==> CompHistoryOk(h, s, s.comps[i]))
  }

  function UpdateRow(row: seq<int>, s: ScanInfo): (r: seq<int>)
    requires |row| == DCTSIZE2
    ensures |r| == DCTSIZE2
  {
    seq(DCTSIZE2, k requires 0 <= k < DCTSIZE2 => if s.ss <= k <= s.se then s.al else row[k])
  }

  function Update(h: History, s: ScanInfo): (h': History)
    ensures |h'| == |h|
  {
    seq(|h|, c requires 0 <= c < |h| => if c in s.comps then UpdateRow(h[c], s) else h[c])
  }

  predicate ScansOk(h: History, script: seq<ScanInfo>, maxAl: int)
    decreases |script|
  {
    script == [] || (ScanOk(h, script[0], maxAl) && ScansOk(Update(h, script[0]), script[1..], maxAl))
  }

  function After(h: History, script: seq<ScanInfo>): (h': History)
    ensures |h'| == |h|
    decreases |script|
  {
    if script == [] then h else After(Update(h, script[0]), script[1..])
  }

  predicate IsProgressive(script: seq<ScanInfo>)
    requires script != []
  {
    script[0].ss != 0 || script[0].se != DCTSIZE2 - 1
  }

  predicate SequentialScan(s: ScanInfo) {
    s.ss == 0 && s.se == DCTSIZE2 - 1 && s.ah == 0 && s.al == 0
  }

  /** Sequential scripts send every component whole, in one scan each. */
  predicate SequentialOk(sent: set<int>, script: seq<ScanInfo>, n: nat)
    decreases |script|
  {
    script == [] ||
    (&& CompsOk(script[0], n) && SequentialScan(script[0])
     && (forall i :: 0 <= i < |script[0].comps| ==> script[0].comps[i] !in sent)
     && SequentialOk(sent + (set c | c in script[0].comps), script[1..], n))
  }

  function SentAfter(sent: set<int>, script: seq<ScanInfo>): set<int>
    decreases |script|
  {
    if script == [] then sent else SentAfter(sent + (set c | c in script[0].comps), script[1..])
  }

  /** The scripts the compressor accepts. */
  predicate Accepted(script: seq<ScanInfo>, n: nat, precision: int) {
    && script != []
    && if IsProgressive(script) then
         && ScansOk(NothingSent(n), script, MaxAl(precision))
         && SomeDcSent(After(NothingSent(n), script))
       else
         && SequentialOk({}, script, n)
         && AllSent(SentAfter({}, script), n)
  }

  predicate SomeDcSent(h: History) {
    forall c :: 0 <= c < |h| ==> h[c][0] >= 0
  }

  predicate AllSent(sent: set<int>, n: nat) {
    forall c :: 0 <= c < n ==> c in sent
  }

  // ----- what accepted scripts send

  predicate SendsCoef(s: ScanInfo, c: int, k: int) {
    c in s.comps && s.ss <= k <= s.se
  }

  /** A first scan sends every bit from `al` up; a refinement sends bit `al` alone. */
  predicate SendsBit(s: ScanInfo, c: int, k: int, b: int) {
    SendsCoef(s, c, k) && if s.ah == 0 then b >= s.al else b == s.al
  }

  function TimesSent(script: seq<ScanInfo>, c: int, k: int, b: int): nat
    decreases |script|
  {
    if script == [] then 0
    else (if SendsBit(script[0], c, k, b) then 1 else 0) + TimesSent(script[1..], c, k, b)
  }

  /**
   An accepted script sends each bit plane of each coefficient from the top down
   to the last position reached exactly once, and no bit below it.
   */
  lemma {:induction false} EachBitOnce(h: History, script: seq<ScanInfo>, maxAl: int, c: nat, k: nat, b: int)
    requires ScansOk(h, script, maxAl) && c < |h| && k < DCTSIZE2 && b >= 0
    requires -1 <= h[c][k]
    ensures var first, last := h[c][k], After(h, script)[c][k];
            && (first >= 0 ==> 0 <= last <= first)
            && TimesSent(script, c, k, b)
               == if last >= 0 && b >= last && (first < 0 || b < first) then 1 else 0
    decreases |script|
  {
    if script != [] {
      var s, h' := script[0], Update(h, script[0]);
      assert h'[c][k] == if SendsCoef(s, c, k) then s.al else h[c][k];
      if SendsCoef(s, c, k) {
        var i :| 0 <= i < |s.comps| && s.comps[i] == c;
        assert CompHistoryOk(h, s, s.comps[i]);
        assert NextBitOk(s, h[c][k]);
      }
      EachBitOnce(h', script[1..], maxAl, c, k, b);
    }
  }

  /** No AC coefficient of a component is sent before its DC coefficient. */
  lemma {:induction false} DcFirst(h: History, script: seq<ScanInfo>, maxAl: int, i: nat, c: int, k: int)
    requires ScansOk(h, script, maxAl) && i < |script| && k > 0 && SendsCoef(script[i], c, k)
    requires 0 <= c < |h|
    ensures h[c][0] >= 0 || exists j :: 0 <= j < i && SendsCoef(script[j], c, 0)
    decreases |script|
  {
    var s := script[0];
    if i == 0 {
      var n :| 0 <= n < |s.comps| && s.comps[n] == c;
      assert CompHistoryOk(h, s, s.comps[n]);
    } else {
      var h' := Update(h, s);
      assert script[1..][i - 1] == script[i];
      DcFirst(h', script[1..], maxAl, i - 1, c, k);
      if h'[c][0] >= 0 {
        if h[c][0] < 0 {
          assert SendsCoef(script[0], c, 0);
        }
      } else {
        var j :| 0 <= j < i - 1 && SendsCoef(script[1..][j], c, 0);
        assert SendsCoef(script[j + 1], c, 0);
      }
    }
  }

  function ScansOf(script: seq<ScanInfo>, c: int): nat
    decreases |script|
  {
    if script == [] then 0 else (if c in script[0].comps then 1 else 0) + ScansOf(script[1..], c)
  }

  /** An accepted sequential script sends each component in exactly one scan. */
  lemma {:induction false} SequentialOnce(sent: set<int>, script: seq<ScanInfo>, n: nat, c: int)
    requires SequentialOk(sent, script, n)
    ensures ScansOf(script, c) == if c !in sent && c in SentAfter(sent, script) then 1 else 0
    ensures sent <= SentAfter(sent, script)
    decreases |script|
  {
    if script != [] {
      SequentialOnce(sent + (set d | d in script[0].comps), script[1..], n, c);
    }
  }

  // ----- validate_script

  /** Why a script is rejected; `BadScan` numbers scans from 1. */
  datatype Verdict = Valid(progressive: bool) | EmptyScript | BadScan(scanno: nat) | MissingData

  const MAX_COMPONENTS := 10

  ghost function HistoryOf(a: array2<int>, n: nat): History
    requires n <= a.Length0 && a.Length1 == DCTSIZE2
    reads a
  {
    seq(n, c requires 0 <= c < n reads a => seq(DCTSIZE2, k requires 0 <= k < DCTSIZE2 reads a => a[c, k]))
  }

  lemma SameHistory(a: array2<int>, n: nat, h: History)
    requires n <= a.Length0 && a.Length1 == DCTSIZE2 && |h| == n
    requires forall c, k :: 0 <= c < n && 0 <= k < DCTSIZE2 ==> a[c, k] == h[c][k]
    ensures HistoryOf(a, n) == h
  {
    forall c | 0 <= c < n ensures HistoryOf(a, n)[c] == h[c] {
      assert |HistoryOf(a, n)[c]| == |h[c]|;
      assert forall k :: 0 <= k < DCTSIZE2 ==> HistoryOf(a, n)[c][k] == a[c, k];
    }
  }

  method CheckComponents(s: ScanInfo, n: nat) returns (ok: bool)
    ensures ok <==> CompsOk(s, n)
  {
    if |s.comps| <= 0 || |s.comps| > MAX_COMPS_IN_SCAN {
      return false;
    }
    var ci := 0;
    while ci < |s.comps|
      invariant 0 <= ci <= |s.comps|
      invariant forall i :: 0 <= i < ci ==> 0 <= s.comps[i] < n
      invariant forall i :: 1 <= i < ci ==> s.comps[i - 1] < s.comps[i]
    {
      var thisi := s.comps[ci];
      if thisi < 0 || thisi >= n {
        return false;
      }
      if ci > 0 && thisi <= s.comps[ci - 1] {
        return false;
      }
      ci := ci + 1;
    }
    ok := true;
  }

  /** Checks the band of one component against its bit positions, recording the new one as it goes. */
  method CheckBand(a: array2<int>, c: nat, s: ScanInfo) returns (ok: bool)
    requires c < a.Length0 && a.Length1 == DCTSIZE2 && 0 <= s.ss <= s.se < DCTSIZE2
    modifies a
    ensures forall d, k :: 0 <= d < a.Length0 && 0 <= k < DCTSIZE2 && d != c ==> a[d, k] == old(a[d, k])
    ensures ok <==> (s.ss != 0 ==> old(a[c, 0]) >= 0)
                    && (forall k :: 0 <= k < DCTSIZE2 && s.ss <= k <= s.se ==> NextBitOk(s, old(a[c, k])))
    ensures ok ==> forall k :: 0 <= k < DCTSIZE2 ==> a[c, k] == if s.ss <= k <= s.se then s.al else old(a[c, k])
  {
    if s.ss != 0 && a[c, 0] < 0 {
      return false;
    }
    var coefi := s.ss;
    while coefi <= s.se
      invariant s.ss <= coefi <= s.se + 1
      invariant forall d, k :: 0 <= d < a.Length0 && 0 <= k < DCTSIZE2 && d != c ==> a[d, k] == old(a[d, k])
      invariant forall k :: 0 <= k < DCTSIZE2 ==> a[c, k] == if s.ss <= k < coefi then s.al else old(a[c, k])
      invariant forall k :: 0 <= k < DCTSIZE2 && s.ss <= k < coefi ==> NextBitOk(s, old(a[c, k]))
    {
      if a[c, coefi] < 0 {
        if s.ah != 0 {
          return false;
        }
      } else if s.ah != a[c, coefi] || s.al != s.ah - 1 {
        return false;
      }
      a[c, coefi] := s.al;
      coefi := coefi + 1;
    }
    ok := true;
  }

  /** Checks the progression of one scan and brings the table up to date. */
  method CheckProgression(a: array2<int>, n: nat, s: ScanInfo) returns (ok: bool)
    requires n <= a.Length0 && a.Length1 == DCTSIZE2 && CompsOk(s, n) && 0 <= s.ss <= s.se < DCTSIZE2
    modifies a
    ensures ok <==> forall i :: 0 <= i < |s.comps| ==> CompHistoryOk(old(HistoryOf(a, n)), s, s.comps[i])
    ensures ok ==> HistoryOf(a, n) == Update(old(HistoryOf(a, n)), s)
  {
    ghost var h := HistoryOf(a, n);
    var ci := 0;
    while ci < |s.comps|
      invariant 0 <= ci <= |s.comps|
      invariant forall i :: 0 <= i < ci ==> CompHistoryOk(h, s, s.comps[i])
      invariant forall c, k :: 0 <= c < n && 0 <= k < DCTSIZE2 ==>
                  a[c, k] == if c in s.comps[..ci] then UpdateRow(h[c], s)[k] else h[c][k]
    {
      var c := s.comps[ci];
      ComponentsDistinct(s, n, ci);
      var good := CheckBand(a, c, s);
      if !good {
        assert !CompHistoryOk(h, s, s.comps[ci]);
        return false;
      }
      assert CompHistoryOk(h, s, s.comps[ci]);
      assert s.comps[..ci + 1] == s.comps[..ci] + [c];
      ci := ci + 1;
    }
    assert s.comps[..|s.comps|] == s.comps;
    SameHistory(a, n, Update(h, s));
    ok := true;
  }

  lemma {:induction false} ComponentsDistinct(s: ScanInfo, n: nat, j: nat)
    requires CompsOk(s, n) && j < |s.comps|
    ensures s.comps[j] !in s.comps[..j]
    ensures forall i :: 0 <= i < j ==> s.comps[i] < s.comps[j]
    decreases j
  {
    if j > 0 {
      ComponentsDistinct(s, n, j - 1);
    }
  }

  lemma {:induction false} AfterAppend(h: History, script: seq<ScanInfo>, i: nat)
    requires i < |script|
    ensures After(h, script[..i + 1]) == Update(After(h, script[..i]), script[i])
    decreases i
  {
    if i > 0 {
      assert script[1..][..i] == script[..i + 1][1..] && script[1..][..i - 1] == script[..i][1..];
      AfterAppend(Update(h, script[0]), script[1..], i - 1);
    } else {
      assert script[..1][1..] == [];
    }
  }

  lemma {:induction false} OkAppend(h: History, script: seq<ScanInfo>, i: nat, maxAl: int)
    requires i <= |script|
    ensures ScansOk(h, script, maxAl)
            <==> ScansOk(h, script[..i], maxAl) && ScansOk(After(h, script[..i]), script[i..], maxAl)
    ensures After(h, script) == After(After(h, script[..i]), script[i..])
    decreases i
  {
    if i > 0 {
      assert script[1..][..i - 1] == script[..i][1..] && script[1..][i - 1..] == script[i..];
      OkAppend(Update(h, script[0]), script[1..], i - 1, maxAl);
    } else {
      assert script[0..] == script;
    }
  }

  lemma OkNext(h: History, script: seq<ScanInfo>, i: nat, maxAl: int)
    requires i < |script| && ScansOk(h, script[..i], maxAl)
    ensures ScansOk(h, script[..i + 1], maxAl) <==> ScanOk(After(h, script[..i]), script[i], maxAl)
    ensures !ScansOk(h, script[..i + 1], maxAl) ==> !ScansOk(h, script, maxAl)
  {
    hide ScanOk;
    OkAppend(h, script[..i + 1], i, maxAl);
    assert script[..i + 1][..i] == script[..i] && script[..i + 1][i..] == [script[i]];
    assert [script[i]][1..] == [];
    OkAppend(h, script, i + 1, maxAl);
  }

  /** Checks one scan of a progressive script. */
  method CheckScan(a: array2<int>, n: nat, s: ScanInfo, precision: int) returns (ok: bool)
    requires n <= a.Length0 && a.Length1 == DCTSIZE2
    modifies a
    ensures ok <==> ScanOk(old(HistoryOf(a, n)), s, MaxAl(precision))
    ensures ok ==> HistoryOf(a, n) == Update(old(HistoryOf(a, n)), s)
  {
    ok := CheckComponents(s, n);
    if !ok {
      return false;
    }
    var maxAl := if precision > 8 then 13 else 10;
    if s.ss < 0 || s.ss >= DCTSIZE2 || s.se < s.ss || s.se >= DCTSIZE2
       || s.ah < 0 || s.ah > maxAl || s.al < 0 || s.al > maxAl {
      return false;
    }
    if s.ss == 0 {
      if s.se != 0 {
        return false;
      }
    } else if |s.comps| != 1 {
      return false;
    }
    ok := CheckProgression(a, n, s);
  }

  /** The progressive branch of validation. */
  method ValidateProgressive(script: seq<ScanInfo>, n: nat, precision: int) returns (v: Verdict)
    requires 1 <= n <= MAX_COMPONENTS && script != []
    ensures var h, m := NothingSent(n), MaxAl(precision);
            && (v == Valid(true) <==> ScansOk(h, script, m) && SomeDcSent(After(h, script)))
            && (v.Valid? ==> v.progressive) && !v.EmptyScript?
            && (v.BadScan? ==>
                  && 1 <= v.scanno <= |script| && ScansOk(h, script[..v.scanno - 1], m)
                  && !ScanOk(After(h, script[..v.scanno - 1]), script[v.scanno - 1], m))
            && (v.MissingData? ==> ScansOk(h, script, m))
  {
    hide ScanOk, After;
    ghost var h0, m := NothingSent(n), MaxAl(precision);
    var a := new int[MAX_COMPONENTS, DCTSIZE2]((c, k) => -1);
    SameHistory(a, n, h0);
    assert After(h0, script[..0]) == h0 by { AfterNone(h0); }
    var scanno := 1;
    while scanno <= |script|
      invariant 1 <= scanno <= |script| + 1
      invariant ScansOk(h0, script[..scanno - 1], m) && HistoryOf(a, n) == After(h0, script[..scanno - 1])
    {
      OkNext(h0, script, scanno - 1, m);
      var ok := CheckScan(a, n, script[scanno - 1], precision);
      if !ok {
        return BadScan(scanno);
      }
      AfterAppend(h0, script, scanno - 1);
      scanno := scanno + 1;
    }
    assert script[..|script|] == script;
    var ci := 0;
    while ci < n
      invariant 0 <= ci <= n && forall c :: 0 <= c < ci ==> HistoryOf(a, n)[c][0] >= 0
    {
      if a[ci, 0] < 0 {
        assert HistoryOf(a, n)[ci][0] < 0;
        return MissingData;
      }
      ci := ci + 1;
    }
    v := Valid(true);
  }

  lemma AfterNone(h: History)
    ensures After(h, []) == h
  {
  }

  // ----- the sequential branch

  lemma {:induction false} SequentialAppend(sent: set<int>, script: seq<ScanInfo>, i: nat, n: nat)
    requires i < |script|
    ensures SentAfter(sent, script[..i + 1]) == SentAfter(sent, script[..i]) + (set c | c in script[i].comps)
    ensures SequentialOk(sent, script[..i], n) ==>
              (SequentialOk(sent, script[..i + 1], n) <==> SequentialScanOk(SentAfter(sent, script[..i]), script[i], n))
    ensures SequentialOk(sent, script, n) ==> SequentialOk(sent, script[..i + 1], n)
    decreases i
  {
    hide SequentialScan, CompsOk;
    var now := sent + (set c | c in script[0].comps);
    if i > 0 {
      assert script[1..][..i] == script[..i + 1][1..] && script[1..][..i - 1] == script[..i][1..];
      SequentialAppend(now, script[1..], i - 1, n);
    } else {
      assert script[..1][1..] == [];
    }
  }

  predicate SequentialScanOk(sent: set<int>, s: ScanInfo, n: nat) {
    CompsOk(s, n) && SequentialScan(s) && forall i :: 0 <= i < |s.comps| ==> s.comps[i] !in sent
  }

  /** Checks one scan of a sequential script, marking its components as sent. */
  method CheckSequential(sent: array<bool>, n: nat, s: ScanInfo, ghost done: set<int>) returns (ok: bool)
    requires n <= sent.Length && forall c :: 0 <= c < n ==> (sent[c] <==> c in done)
    modifies sent
    ensures ok <==> SequentialScanOk(done, s, n)
    ensures ok ==> forall c :: 0 <= c < n ==> (sent[c] <==> c in done + (set d | d in s.comps))
  {
    ok := CheckComponents(s, n);
    if !ok {
      return false;
    }
    if s.ss != 0 || s.se != DCTSIZE2 - 1 || s.ah != 0 || s.al != 0 {
      return false;
    }
    var ci := 0;
    while ci < |s.comps|
      invariant 0 <= ci <= |s.comps|
      invariant forall i :: 0 <= i < ci ==> s.comps[i] !in done
      invariant forall c :: 0 <= c < n ==> (sent[c] <==> c in done || c in s.comps[..ci])
    {
      var thisi := s.comps[ci];
      ComponentsDistinct(s, n, ci);
      if sent[thisi] {
        return false;
      }
      sent[thisi] := true;
      assert s.comps[..ci + 1] == s.comps[..ci] + [thisi];
      ci := ci + 1;
    }
    assert s.comps[..|s.comps|] == s.comps;
    ok := true;
  }

  method ValidateSequential(script: seq<ScanInfo>, n: nat) returns (v: Verdict)
    requires 1 <= n <= MAX_COMPONENTS && script != []
    ensures v == Valid(false) <==> SequentialOk({}, script, n) && AllSent(SentAfter({}, script), n)
    ensures (v.Valid? ==> !v.progressive) && !v.EmptyScript?
    ensures v.BadScan? ==>
              && 1 <= v.scanno <= |script| && SequentialOk({}, script[..v.scanno - 1], n)
              && !SequentialScanOk(SentAfter({}, script[..v.scanno - 1]), script[v.scanno - 1], n)
    ensures v.MissingData? ==> SequentialOk({}, script, n)
  {
    var sent := new bool[MAX_COMPONENTS](c => false);
    var scanno := 1;
    while scanno <= |script|
      invariant 1 <= scanno <= |script| + 1 && SequentialOk({}, script[..scanno - 1], n)
      invariant forall c :: 0 <= c < n ==> (sent[c] <==> c in SentAfter({}, script[..scanno - 1]))
    {
      SequentialAppend({}, script, scanno - 1, n);
      var ok := CheckSequential(sent, n, script[scanno - 1], SentAfter({}, script[..scanno - 1]));
      if !ok {
        return BadScan(scanno);
      }
      scanno := scanno + 1;
    }
    assert script[..|script|] == script;
    var ci := 0;
    while ci < n
      invariant 0 <= ci <= n && forall c :: 0 <= c < ci ==> c in SentAfter({}, script)
    {
      assert sent[ci] <==> ci in SentAfter({}, script);
      if !sent[ci] {
        return MissingData;
      }
      ci := ci + 1;
    }
    v := Valid(false);
  }

  /** Verifies a scan script and tells whether it is progressive. */
  method ValidateScript(script: seq<ScanInfo>, n: nat, precision: int) returns (v: Verdict)
    requires 1 <= n <= MAX_COMPONENTS
    ensures v.Valid? <==> Accepted(script, n, precision)
    ensures v.Valid? ==> v.progressive == IsProgressive(script)
    ensures v.EmptyScript? <==> script == []
  {
    if |script| <= 0 {
      return EmptyScript;
    }
    if script[0].ss != 0 || script[0].se != DCTSIZE2 - 1 {
      v := ValidateProgressive(script, n, precision);
    } else {
      v := ValidateSequential(script, n);
    }
  }
}
