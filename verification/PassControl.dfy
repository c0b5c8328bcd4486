/**
 Master control of compression (jcmaster.c, jcapimin.c): which passes are made over
 the image, and what each hands to the entropy coder and the marker writer.
 */
module PassControl {
  import opened ScanScript
  import opened ScriptReduction

  datatype PassType = MainPass | HuffOptPass | OutputPass

  datatype Event =
    | StartEntropy(gather: bool, scan: nat)
    | FinishEntropy
    | FrameHeader
    | ScanHeader(scan: nat)
    | Trailer

  // ----- what a compression should do

  /** DC refinement scans need no Huffman table. */
  predicate DcRefinement(scans: seq<ScanInfo>, progressive: bool, s: nat) {
    progressive && s < |scans| && scans[s].ss == 0 && scans[s].ah != 0
  }

  function GatherEvents(s: nat): seq<Event> {
    [StartEntropy(true, s), FinishEntropy]
  }

  function OutputEvents(s: nat): seq<Event> {
    [StartEntropy(false, s)] + (if s == 0 then [FrameHeader] else []) + [ScanHeader(s), FinishEntropy]
  }

  /** The first `n` scans: each gathered, if that is wanted and useful, then output. */
  function Events(scans: seq<ScanInfo>, progressive: bool, optimize: bool, n: nat): seq<Event>
    decreases n
  {
    if n == 0 then [] else Events(scans, progressive, optimize, n - 1) + ScanEvents(scans, progressive, optimize, n - 1)
  }

  function ScanEvents(scans: seq<ScanInfo>, progressive: bool, optimize: bool, s: nat): seq<Event> {
    if optimize && !DcRefinement(scans, progressive, s) then GatherEvents(s) + OutputEvents(s) else OutputEvents(s)
  }

  /** What to look for in a log. */
  datatype Look = Gathers | Outputs | ScanHeaders | FrameHeaders

  /** The scan an event is about, if it is one of those looked for. */
  function Item(e: Event, look: Look): seq<nat> {
    match look
    case Gathers => if e.StartEntropy? && e.gather then [e.scan] else []
    case Outputs => if e.StartEntropy? && !e.gather then [e.scan] else []
    case ScanHeaders => if e.ScanHeader? then [e.scan] else []
    case FrameHeaders => if e.FrameHeader? then [0] else []
  }

  /** The scans of all events looked for, in order. */
  function Seen(log: seq<Event>, look: Look): seq<nat>
    decreases |log|
  {
    if log == [] then [] else Item(log[0], look) + Seen(log[1..], look)
  }

  lemma Associate(a: seq<nat>, b: seq<nat>, c: seq<nat>)
    ensures a + (b + c) == (a + b) + c
  {
  }

  lemma {:induction false} SeenConcat(a: seq<Event>, b: seq<Event>, look: Look)
    ensures Seen(a + b, look) == Seen(a, look) + Seen(b, look)
    decreases |a|
  {
    hide Item;
    if a == [] {
      assert a + b == b;
    } else {
      assert (a + b)[1..] == a[1..] + b;
      SeenConcat(a[1..], b, look);
      Associate(Item(a[0], look), Seen(a[1..], look), Seen(b, look));
    }
  }

  lemma SeenOne(e: Event, look: Look)
    ensures Seen([e], look) == Item(e, look)
  {
    assert [e][1..] == [];
  }

  lemma SeenGather(s: nat, look: Look)
    ensures Seen(GatherEvents(s), look) == if look.Gathers? then [s] else []
  {
    SeenConcat([StartEntropy(true, s)], [FinishEntropy], look);
    SeenOne(StartEntropy(true, s), look);
    SeenOne(FinishEntropy, look);
    assert GatherEvents(s) == [StartEntropy(true, s)] + [FinishEntropy];
  }

  lemma SeenOutput(s: nat, look: Look)
    ensures Seen(OutputEvents(s), look)
            == match look
               case Gathers => []
               case Outputs => [s]
               case ScanHeaders => [s]
               case FrameHeaders => if s == 0 then [0] else []
  {
    var frame := if s == 0 then [FrameHeader] else [];
    SeenConcat([StartEntropy(false, s)], frame, look);
    SeenConcat([StartEntropy(false, s)] + frame, [ScanHeader(s)], look);
    SeenConcat([StartEntropy(false, s)] + frame + [ScanHeader(s)], [FinishEntropy], look);
    SeenOne(StartEntropy(false, s), look);
    SeenOne(FrameHeader, look);
    SeenOne(ScanHeader(s), look);
    SeenOne(FinishEntropy, look);
    assert OutputEvents(s) == [StartEntropy(false, s)] + frame + [ScanHeader(s)] + [FinishEntropy];
  }

  lemma SeenScan(scans: seq<ScanInfo>, progressive: bool, optimize: bool, s: nat, look: Look)
    ensures Seen(ScanEvents(scans, progressive, optimize, s), look)
            == match look
               case Gathers => if optimize && !DcRefinement(scans, progressive, s) then [s] else []
               case Outputs => [s]
               case ScanHeaders => [s]
               case FrameHeaders => if s == 0 then [0] else []
  {
    hide Seen, GatherEvents, OutputEvents, DcRefinement;
    SeenConcat(GatherEvents(s), OutputEvents(s), look);
    SeenGather(s, look);
    SeenOutput(s, look);
  }

  /** The first `n` scans, without the DC refinements. */
  function WithTables(scans: seq<ScanInfo>, progressive: bool, n: nat): seq<nat>
    decreases n
  {
    if n == 0 then [] else
    WithTables(scans, progressive, n - 1) + if DcRefinement(scans, progressive, n - 1) then [] else [n - 1]
  }

  function UpTo(n: nat): seq<nat>
    decreases n
  {
    if n == 0 then [] else UpTo(n - 1) + [n - 1]
  }

  /**
   Over the whole run each scan is output exactly once, in order, with its scan
   header; statistics are gathered for exactly the scans that have a table; and
   there is one frame header.
   */
  lemma {:induction false} EachScanOnce(scans: seq<ScanInfo>, progressive: bool, optimize: bool, n: nat, look: Look)
    ensures Seen(Events(scans, progressive, optimize, n), look)
            == match look
               case Gathers => if optimize then WithTables(scans, progressive, n) else []
               case Outputs => UpTo(n)
               case ScanHeaders => UpTo(n)
               case FrameHeaders => if n == 0 then [] else [0]
    decreases n
  {
    if n > 0 {
      EachScanOnce(scans, progressive, optimize, n - 1, look);
      hide Seen, ScanEvents, DcRefinement;
      SeenConcat(Events(scans, progressive, optimize, n - 1), ScanEvents(scans, progressive, optimize, n - 1), look);
      SeenScan(scans, progressive, optimize, n - 1, look);
    } else {
      SeenNone(look);
    }
  }

  lemma SeenNone(look: Look)
    ensures Seen([], look) == []
  {
  }

  /** A gathering pass is followed at once by the output pass of the same scan. */
  predicate GatherThenOutput(log: seq<Event>) {
    forall i :: 0 <= i < |log| && log[i].StartEntropy? && log[i].gather ==>
      i + 2 < |log| && log[i + 1] == FinishEntropy && log[i + 2] == StartEntropy(false, log[i].scan)
  }

  lemma {:induction false} GatherPrecedes(scans: seq<ScanInfo>, progressive: bool, optimize: bool, n: nat)
    ensures GatherThenOutput(Events(scans, progressive, optimize, n))
    decreases n
  {
    if n > 0 {
      GatherPrecedes(scans, progressive, optimize, n - 1);
      var before, log := Events(scans, progressive, optimize, n - 1), Events(scans, progressive, optimize, n);
      var last := ScanEvents(scans, progressive, optimize, n - 1);
      assert log == before + last;
      forall i | 0 <= i < |log| && log[i].StartEntropy? && log[i].gather
        ensures i + 2 < |log| && log[i + 1] == FinishEntropy && log[i + 2] == StartEntropy(false, log[i].scan)
      {
        if i < |before| {
          assert before[i] == log[i] && before[i + 1] == log[i + 1] && before[i + 2] == log[i + 2];
        } else {
          assert log[i] == last[i - |before|];
          assert last[0] == log[|before|];
        }
      }
    }
  }

  /** The frame header comes before the first scan header. */
  lemma {:induction false} FrameHeaderFirst(scans: seq<ScanInfo>, progressive: bool, optimize: bool, n: nat) returns (i: nat)
    requires n > 0
    ensures var log := Events(scans, progressive, optimize, n);
            i < |log| && log[i] == FrameHeader && Seen(log[..i], ScanHeaders) == []
    decreases n
  {
    if n == 1 {
      i := FrameHeaderInFirst(scans, progressive, optimize);
      assert Events(scans, progressive, optimize, 0) == [];
      assert Events(scans, progressive, optimize, 1) == ScanEvents(scans, progressive, optimize, 0);
    } else {
      hide ScanEvents, Seen;
      var before, log := Events(scans, progressive, optimize, n - 1), Events(scans, progressive, optimize, n);
      i := FrameHeaderFirst(scans, progressive, optimize, n - 1);
      assert log[..i] == before[..i] && log[i] == before[i];
    }
  }

  lemma FrameHeaderInFirst(scans: seq<ScanInfo>, progressive: bool, optimize: bool) returns (i: nat)
    ensures var log := ScanEvents(scans, progressive, optimize, 0);
            i < |log| && log[i] == FrameHeader && Seen(log[..i], ScanHeaders) == []
  {
    hide Seen;
    var log := ScanEvents(scans, progressive, optimize, 0);
    SeenOne(StartEntropy(false, 0), ScanHeaders);
    if optimize && !DcRefinement(scans, progressive, 0) {
      i := 3;
      assert log[..3] == GatherEvents(0) + [StartEntropy(false, 0)];
      SeenConcat(GatherEvents(0), [StartEntropy(false, 0)], ScanHeaders);
      SeenGather(0, ScanHeaders);
    } else {
      i := 1;
      assert log[..1] == [StartEntropy(false, 0)];
    }
  }

  // ----- master control

  class Master {
    var scans: seq<ScanInfo>
    var progressive: bool
    var arithCode: bool
    var optimizeCoding: bool

    var passType: PassType
    var passNumber: nat
    var totalPasses: nat
    var scanNumber: nat

    var isLastPass: bool
    var callPassStartup: bool

    // Spectral start and previous bit position of the scan last selected.
    var ss: int
    var ah: int

    // Calls on the entropy coder and the marker writer.
    var log: seq<Event>

    constructor ()
      ensures log == [] && !isLastPass
    {
      scans, progressive, arithCode, optimizeCoding := [], false, false, false;
      passType, passNumber, totalPasses, scanNumber := MainPass, 0, 0, 0;
      isLastPass, callPassStartup, ss, ah, log := false, false, 0, 0, [];
    }

    /** The next pass belongs to scan `s`, all earlier scans being complete. */
    ghost predicate Before(s: nat)
      reads this`scans, this`progressive, this`arithCode, this`optimizeCoding, this`passType, this`passNumber,
            this`totalPasses, this`scanNumber, this`log, this`ss, this`ah
    {
      && scans != [] && s <= |scans| && scanNumber == s && !DcRefinement(scans, progressive, 0)
      && totalPasses == (if optimizeCoding then 2 * |scans| else |scans|)
      && (optimizeCoding ==> !arithCode)
      && var done := Events(scans, progressive, optimizeCoding, s);
         match passType
         case MainPass => s == 0 && passNumber == 0 && log == []
         case HuffOptPass => optimizeCoding && passNumber == 2 * s && log == done
         case OutputPass =>
           if !optimizeCoding then passNumber == s && log == done
           else && s < |scans| && passNumber == 2 * s + 1 && log == done + GatherEvents(s)
                && !DcRefinement(scans, progressive, s)
    }

    /** Checks and adapts the script, and decides how many passes there will be. */
    method Init(script: array?<ScanInfo>, n: nat, precision: int, blockSize: nat, limSe: nat, transcodeOnly: bool)
      returns (ok: bool)
      requires 1 <= n <= MAX_COMPONENTS && !isLastPass && log == []
      modifies this, script
      ensures ok <==> script == null || Accepted(old(script[..]), n, precision)
      ensures ok ==> Before(0) && !isLastPass && (transcodeOnly <==> passType != MainPass)
      ensures ok && script != null ==>
                progressive == IsProgressive(old(script[..]))
                && scans == (if blockSize < 8 then Reduced(old(script[..]), limSe) else old(script[..]))
      ensures ok && script == null ==> |scans| == 1
    {
      hide Accepted, Reduced, IsProgressive, DcRefinement;
      NullScript();
      EventsNone([], false, false);
      if script != null {
        var v := ValidateScript(script[..], n, precision);
        if !v.Valid? {
          return false;
        }
        progressive := v.progressive;
        ghost var given := script[..];
        assert script[..script.Length] == given;
        var count := script.Length;
        FirstScan(given, n, precision, limSe);
        if blockSize < 8 {
          count := ReduceScript(script, count, limSe);
        }
        scans := script[..count];
      } else {
        progressive := false;
        scans := [ScanInfo([], 0, 63, 0, 0)];
      }
      if optimizeCoding {
        arithCode := false;
      } else if !arithCode && (progressive || (1 < blockSize < 8)) {
        optimizeCoding := true;
      }
      if transcodeOnly {
        passType := if optimizeCoding then HuffOptPass else OutputPass;
      } else {
        passType := MainPass;
      }
      scanNumber, passNumber := 0, 0;
      totalPasses := if optimizeCoding then |scans| * 2 else |scans|;
      ok := true;
    }

    method SelectScan()
      requires scanNumber < |scans|
      modifies this`ss, this`ah
      ensures (ss != 0 || ah == 0) <==> !DcRefinement(scans, progressive, scanNumber)
    {
      if progressive {
        ss, ah := scans[scanNumber].ss, scans[scanNumber].ah;
      } else {
        ss, ah := 0, 0;
      }
    }

    /** Starts the next pass; headers are put off in a first pass that gathers or may be preceded by markers. */
    method PrepareForPass(ghost s: nat)
      requires Before(s) && s < |scans|
      modifies this`ss, this`ah, this`passType, this`passNumber, this`isLastPass, this`callPassStartup, this`log
      ensures isLastPass <==> passNumber == totalPasses - 1
      ensures passType == if old(passType) == HuffOptPass && DcRefinement(scans, progressive, s) then OutputPass else old(passType)
      ensures passNumber == if passType != old(passType) then old(passNumber) + 1 else old(passNumber)
      ensures callPassStartup <==> old(passType) == MainPass && !optimizeCoding
      ensures var gather := passType == HuffOptPass || (passType == MainPass && optimizeCoding);
              log == old(log) + [StartEntropy(gather, s)]
                     + (if passType != OutputPass then [] else (if s == 0 then [FrameHeader] else []) + [ScanHeader(s)])
    {
      var kind := passType;
      match kind {
      case MainPass =>
        SelectScan();
        log := log + [StartEntropy(optimizeCoding, scanNumber)];
        callPassStartup := !optimizeCoding;
      case HuffOptPass =>
        SelectScan();
        if ss != 0 || ah == 0 {
          log := log + [StartEntropy(true, scanNumber)];
          callPassStartup := false;
        } else {
          passType := OutputPass;
          passNumber := passNumber + 1;
          StartOutput();
        }
      case OutputPass =>
        StartOutput();
      }
      isLastPass := passNumber + 1 == totalPasses;
    }

    method StartOutput()
      requires scanNumber < |scans|
      modifies this`ss, this`ah, this`callPassStartup, this`log
      ensures !callPassStartup
      ensures log == old(log) + [StartEntropy(false, scanNumber)]
                     + ((if scanNumber == 0 then [FrameHeader] else []) + [ScanHeader(scanNumber)])
    {
      if !optimizeCoding {
        SelectScan();
      }
      log := log + [StartEntropy(false, scanNumber)];
      if scanNumber == 0 {
        log := log + [FrameHeader];
      }
      log := log + [ScanHeader(scanNumber)];
      callPassStartup := false;
    }

    /** The postponed headers of a single-pass compression. */
    method PassStartup()
      requires callPassStartup
      modifies this`callPassStartup, this`log
      ensures !callPassStartup && log == old(log) + [FrameHeader, ScanHeader(0)]
    {
      callPassStartup := false;
      log := log + [FrameHeader];
      log := log + [ScanHeader(0)];
    }

    method FinishPass()
      modifies this`passType, this`passNumber, this`scanNumber, this`log
      ensures log == old(log) + [FinishEntropy] && passNumber == old(passNumber) + 1
      ensures passType == if old(passType) == OutputPass && optimizeCoding then HuffOptPass else OutputPass
      ensures scanNumber == old(scanNumber)
                            + if old(passType) == OutputPass || (old(passType) == MainPass && !optimizeCoding) then 1 else 0
    {
      log := log + [FinishEntropy];
      var kind := passType;
      match kind {
      case MainPass =>
        passType := OutputPass;
        if !optimizeCoding {
          scanNumber := scanNumber + 1;
        }
      case HuffOptPass =>
        passType := OutputPass;
      case OutputPass =>
        if optimizeCoding {
          passType := HuffOptPass;
        }
        scanNumber := scanNumber + 1;
      }
      passNumber := passNumber + 1;
    }

    /** One pass from start to finish: it gathers for scan `s`, or it outputs scan `s`. */
    method RunPass(ghost s: nat) returns (ghost t: nat)
      requires Before(s) && s < |scans|
      modifies this`ss, this`ah, this`passType, this`passNumber, this`isLastPass, this`callPassStartup, this`log, this`scanNumber
      ensures Before(t) && (t == s || t == s + 1) && passNumber > old(passNumber)
      ensures isLastPass <==> t == |scans|
      ensures passType != MainPass
    {
      hide Events, GatherEvents, OutputEvents, DcRefinement;
      ghost var before := log;
      LogOutput(before, s);
      LogGather(before, s);
      EventsNext(scans, progressive, optimizeCoding, s);
      EventsNone(scans, progressive, optimizeCoding);
      PrepareForPass(s);
      if callPassStartup {
        PassStartup();
      }
      FinishPass();
      t := scanNumber;
    }

    /**
     A whole compression or transcoding run. The loop over remaining passes ends
     exactly after the last scan's output pass.
     */
    method Run()
      requires Before(0) && !isLastPass
      modifies this`ss, this`ah, this`passType, this`passNumber, this`isLastPass, this`callPassStartup, this`log, this`scanNumber
      ensures log == Events(scans, progressive, optimizeCoding, |scans|) + [Trailer]
      ensures scanNumber == |scans| && passNumber == totalPasses
    {
      ghost var s := 0;
      if passType == MainPass {
        s := RunPass(s);
      }
      while !isLastPass
        invariant Before(s) && passType != MainPass && (isLastPass <==> s == |scans|)
        decreases totalPasses + 1 - passNumber
      {
        s := RunPass(s);
      }
      log := log + [Trailer];
    }
  }

  lemma EventsNext(scans: seq<ScanInfo>, progressive: bool, optimize: bool, s: nat)
    ensures var before := Events(scans, progressive, optimize, s);
            Events(scans, progressive, optimize, s + 1)
            == if optimize && !DcRefinement(scans, progressive, s) then before + GatherEvents(s) + OutputEvents(s)
               else before + OutputEvents(s)
  {
    hide GatherEvents, OutputEvents;
    var before := Events(scans, progressive, optimize, s);
    assert before + (GatherEvents(s) + OutputEvents(s)) == before + GatherEvents(s) + OutputEvents(s);
  }

  lemma EventsNone(scans: seq<ScanInfo>, progressive: bool, optimize: bool)
    ensures Events(scans, progressive, optimize, 0) == []
  {
  }

  /** The log after an output pass, with headers written at its start or put off. */
  lemma LogOutput(log: seq<Event>, s: nat)
    ensures log + [StartEntropy(false, s)] + ((if s == 0 then [FrameHeader] else []) + [ScanHeader(s)]) + [FinishEntropy]
            == log + OutputEvents(s)
    ensures s == 0 ==> log + [StartEntropy(false, s)] + [] + [FrameHeader, ScanHeader(0)] + [FinishEntropy]
                       == log + OutputEvents(s)
  {
  }

  lemma LogGather(log: seq<Event>, s: nat)
    ensures log + [StartEntropy(true, s)] + [] + [FinishEntropy] == log + GatherEvents(s)
  {
  }

  lemma NullScript()
    ensures forall scans :: !DcRefinement(scans, false, 0)
  {
  }

  /** The first scan of an accepted script is no refinement, reduced or not. */
  lemma FirstScan(script: seq<ScanInfo>, n: nat, precision: int, limSe: nat)
    requires n > 0 && Accepted(script, n, precision)
    ensures !DcRefinement(script, IsProgressive(script), 0)
    ensures var r := Reduced(script, limSe); r != [] && !DcRefinement(r, IsProgressive(script), 0)
  {
    var s := script[0];
    if IsProgressive(script) {
      var h := NothingSent(n);
      assert CompHistoryOk(h, s, s.comps[0]);
      assert h[s.comps[0]][0] == -1 && NextBitOk(s, h[s.comps[0]][s.ss]);
    }
    assert s.ss == 0;
    assert Reduced(script, limSe)[0] == Clamp(s, limSe);
  }
}
