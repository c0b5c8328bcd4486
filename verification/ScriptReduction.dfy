/**
 Adapting a script to blocks of fewer coefficients (reduce_script in jcmaster.c):
 the in-place compaction, and what it keeps.
 */
module ScriptReduction {
  import opened ScanScript

  function Clamp(s: ScanInfo, lim: int): ScanInfo {
    if s.se > lim then s.(se := lim) else s
  }

  /** Drop the scans that start beyond `lim`; cut the others off there. */
  function Reduced(script: seq<ScanInfo>, lim: int): (r: seq<ScanInfo>)
    ensures |r| <= |script|
    decreases |script|
  {
    if script == [] then []
    else (if script[0].ss > lim then [] else [Clamp(script[0], lim)]) + Reduced(script[1..], lim)
  }

  lemma {:induction false} ReducedAppend(script: seq<ScanInfo>, s: ScanInfo, lim: int)
    ensures Reduced(script + [s], lim) == Reduced(script, lim) + if s.ss > lim then [] else [Clamp(s, lim)]
    decreases |script|
  {
    if script != [] {
      assert (script + [s])[1..] == script[1..] + [s];
      ReducedAppend(script[1..], s, lim);
    } else {
      assert [s][1..] == [];
    }
  }

  /** Compacts the first `num` entries in place and returns how many remain. */
  method ReduceScript(a: array<ScanInfo>, num: nat, lim: int) returns (count: nat)
    requires num <= a.Length
    modifies a
    ensures count <= num && a[..count] == Reduced(old(a[..num]), lim)
    ensures a[num..] == old(a[num..])
  {
    ghost var was := a[..num];
    var idxout, idxin := 0, 0;
    while idxin < num
      invariant 0 <= idxout <= idxin <= num
      invariant a[..idxout] == Reduced(was[..idxin], lim)
      invariant forall i :: idxin <= i < num ==> a[i] == was[i]
      invariant a[num..] == old(a[num..])
    {
      assert was[..idxin + 1] == was[..idxin] + [was[idxin]];
      ReducedAppend(was[..idxin], was[idxin], lim);
      if idxin != idxout {
        a[idxout] := a[idxin];
      }
      idxin := idxin + 1;
      if a[idxout].ss > lim {
        continue;
      }
      if a[idxout].se > lim {
        a[idxout] := a[idxout].(se := lim);
      }
      idxout := idxout + 1;
    }
    assert was[..num] == was;
    count := idxout;
  }

  predicate AgreeBelow(h: History, g: History, lim: int) {
    |h| == |g| && forall c, k :: 0 <= c < |h| && 0 <= k < DCTSIZE2 && k <= lim ==> h[c][k] == g[c][k]
  }

  lemma ReducedStep(h: History, g: History, s: ScanInfo, lim: nat, maxAl: int)
    requires AgreeBelow(h, g, lim) && ScanOk(h, s, maxAl)
    ensures s.ss > lim ==> AgreeBelow(Update(h, s), g, lim)
    ensures s.ss <= lim ==> ScanOk(g, Clamp(s, lim), maxAl) && AgreeBelow(Update(h, s), Update(g, Clamp(s, lim)), lim)
  {
    if s.ss <= lim {
      var r := Clamp(s, lim);
      forall i | 0 <= i < |r.comps| ensures CompHistoryOk(g, r, r.comps[i]) {
        assert CompHistoryOk(h, s, s.comps[i]);
      }
    }
  }

  /** A reduced script is still in order, and treats the kept coefficients as before. */
  lemma {:induction false} ReducedOk(h: History, g: History, script: seq<ScanInfo>, lim: nat, maxAl: int)
    requires AgreeBelow(h, g, lim) && ScansOk(h, script, maxAl)
    ensures ScansOk(g, Reduced(script, lim), maxAl)
    ensures AgreeBelow(After(h, script), After(g, Reduced(script, lim)), lim)
    decreases |script|
  {
    hide ScanOk, Update, AgreeBelow;
    if script != [] {
      var s, rest := script[0], Reduced(script[1..], lim);
      ReducedStep(h, g, s, lim, maxAl);
      if s.ss > lim {
        assert Reduced(script, lim) == rest;
        ReducedOk(Update(h, s), g, script[1..], lim, maxAl);
      } else {
        var r := Clamp(s, lim);
        assert Reduced(script, lim) == [r] + rest && ([r] + rest)[1..] == rest;
        ReducedOk(Update(h, s), Update(g, r), script[1..], lim, maxAl);
      }
    }
  }

  /** The bits sent of each kept coefficient are the same, and nothing is sent of the others. */
  lemma {:induction false} ReducedSends(script: seq<ScanInfo>, lim: nat, c: int, k: int, b: int)
    ensures TimesSent(Reduced(script, lim), c, k, b) == if k <= lim then TimesSent(script, c, k, b) else 0
    decreases |script|
  {
    if script != [] {
      var s, rest := script[0], Reduced(script[1..], lim);
      ReducedSends(script[1..], lim, c, k, b);
      if s.ss <= lim {
        assert ([Clamp(s, lim)] + rest)[1..] == rest;
      } else {
        assert Reduced(script, lim) == rest;
      }
    }
  }

  /** Reducing a progressive script that was accepted leaves one that is accepted as progressive. */
  lemma ReducedAccepted(script: seq<ScanInfo>, n: nat, precision: int, lim: nat)
    requires n > 0 && Accepted(script, n, precision) && IsProgressive(script)
    ensures var r := Reduced(script, lim);
            r != [] && IsProgressive(r) && Accepted(r, n, precision)
  {
    var h, s := NothingSent(n), script[0];
    ReducedOk(h, h, script, lim, MaxAl(precision));
    assert CompHistoryOk(h, s, s.comps[0]);
    assert s.ss == 0;
    assert Reduced(script, lim)[0] == Clamp(s, lim);
  }

  // ----- sequential scripts

  lemma {:induction false} SequentialKept(sent: set<int>, script: seq<ScanInfo>, n: nat, lim: nat)
    requires SequentialOk(sent, script, n) && lim >= DCTSIZE2 - 1
    ensures Reduced(script, lim) == script
    decreases |script|
  {
    if script != [] {
      SequentialKept(sent + (set c | c in script[0].comps), script[1..], n, lim);
    }
  }

  /** Of which components the DC coefficient was sent. */
  predicate DcSent(h: History, sent: set<int>) {
    forall c :: 0 <= c < |h| ==> h[c][0] == if c in sent then 0 else -1
  }

  /** Cut down to DC coefficients, a sequential script is a progressive one. */
  lemma {:induction false} DcScansLeft(h: History, sent: set<int>, script: seq<ScanInfo>, maxAl: nat)
    requires SequentialOk(sent, script, |h|) && DcSent(h, sent)
    ensures ScansOk(h, Reduced(script, 0), maxAl) && DcSent(After(h, Reduced(script, 0)), SentAfter(sent, script))
    decreases |script|
  {
    if script != [] {
      var s, rest := Clamp(script[0], 0), Reduced(script[1..], 0);
      assert Reduced(script, 0) == [s] + rest && ([s] + rest)[1..] == rest;
      DcScansLeft(Update(h, s), sent + (set c | c in script[0].comps), script[1..], maxAl);
    }
  }

  /**
   A sequential script cut down to `lim` would be accepted again exactly when nothing
   is cut, or all but the DC coefficients; between the two it mixes DC and AC.
   */
  lemma ReducedSequential(script: seq<ScanInfo>, n: nat, precision: int, lim: nat)
    requires n > 0 && Accepted(script, n, precision) && !IsProgressive(script)
    ensures Accepted(Reduced(script, lim), n, precision) <==> lim == 0 || lim >= DCTSIZE2 - 1
  {
    var s := script[0];
    assert SequentialScan(s);
    if lim >= DCTSIZE2 - 1 {
      SequentialKept({}, script, n, lim);
    } else {
      assert Reduced(script, lim)[0] == Clamp(s, lim);
      if lim == 0 {
        hide ScansOk, SequentialOk, After;
        DcScansLeft(NothingSent(n), {}, script, MaxAl(precision));
      }
    }
  }
}
