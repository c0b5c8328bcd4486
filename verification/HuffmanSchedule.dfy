/**
 The passes of the master control and the tables of the entropy coder
 (jcmaster.c:479-613, jchuff.c:1465-1509): a scan has a gathering pass exactly if it
 has symbols to count.
 */
module HuffmanSchedule {
  import opened ScanModel
  import Geometry
  import opened ImageReconstruction
  import opened HuffmanStream
  import opened HuffmanNeeds
  import Script = ScanScript
  import Passes = PassControl

  /** A scan coded as its script says, with at least one MCU, all of its components in each. */
  predicate Codes(f: Geometry.Frame, s: ScanInfo, c: Config, ms: seq<seq<McuBlock>>) {
    && Params(f, s) && ValidConfig(c) && OneAc(c) && c.kind == KindOf(f, s) && ms != []
    && forall i :: 0 <= i < |ms| ==> ValidMcu(ms[i], |c.tbls|) && Complete(c, ms[i])
  }

  lemma {:induction false} TablesListed(scans: seq<ScanInfo>, progressive: bool, n: nat, s: nat)
    ensures s in Passes.WithTables(scans, progressive, n) <==> s < n && !Passes.DcRefinement(scans, progressive, s)
    decreases n
  {
    hide Passes.DcRefinement;
    if n > 0 {
      TablesListed(scans, progressive, n - 1, s);
    }
  }

  /** A procedure that needs a table finds it with the first component. */
  lemma SomeTable(c: Config)
    requires ValidConfig(c)
    ensures (exists dc, t :: InScan(c, dc, t)) <==> !c.kind.DcRefine?
  {
    if !c.kind.DcRefine? {
      var dc := Needs(c.kind, true);
      assert TableOf(c.tbls[0], dc) == TableOf(c.tbls[0], dc);
      assert InScan(c, dc, TableOf(c.tbls[0], dc));
    }
  }

  /**
   Of the scans of a script those gathered are those that send a symbol of some
   table. (The script is progressive, or all its scans are sequential ones.)
   */
  lemma GatheredHaveSymbols(f: Geometry.Frame, scans: seq<ScanInfo>, progressive: bool, s: nat, c: Config, ms: seq<seq<McuBlock>>)
    requires s < |scans| && Codes(f, scans[s], c, ms) && (progressive || Script.SequentialScan(scans[s]))
    requires forall i :: 0 <= i < |ms| ==> ValidMcu(ms[i], |c.tbls|)
    requires ScanInRange(c, Start(c), ms)
    ensures s in Passes.WithTables(scans, progressive, |scans|) <==> exists dc, t :: Has(AllItems(c, ms), dc, t)
  {
    hide ScanInRange, AllItems, Has, InScan, Complete, ValidMcu;
    TablesListed(scans, progressive, |scans|, s);
    TablesUsed(c, ms);
    SomeTable(c);
    if dc, t :| InScan(c, dc, t) {
      assert Has(AllItems(c, ms), dc, t);
    }
  }
}
