/**
 A whole Huffman-coded scan as lists of items: one list per restart segment. The
 same in a gathering pass and in an output pass.
 */
module HuffmanStream {
  import opened BlockModel
  import opened ScanModel
  import opened HuffmanItems

  const NUM_HUFF_TBLS := 4

  /** Tables of a component of the scan. */
  datatype Tables = Tables(dc: nat, ac: nat)

  datatype Config = Config(kind: Kind, tbls: seq<Tables>, interval: nat)

  predicate ValidConfig(c: Config) {
    && ValidKind(c.kind) && c.tbls != []
    && (forall i :: 0 <= i < |c.tbls| ==> c.tbls[i].dc < NUM_HUFF_TBLS && c.tbls[i].ac < NUM_HUFF_TBLS)
  }

  /** Finished segments, the current one, predictions, and MCUs left before a restart. */
  datatype State = State(done: seq<seq<Item>>, ac: Ac, lastDc: seq<int>, toGo: nat)

  predicate ValidState(c: Config, st: State) {
    && |st.lastDc| == |c.tbls| && Settled(st.ac) && (!c.kind.AcRefine? ==> st.ac.pend == [])
    && (DcScan(c.kind) ==> st.ac.eobrun == 0)
  }

  function NoAc(): Ac {
    Ac([], 0, [])
  }

  function Zeros(n: nat): (r: seq<int>)
    ensures |r| == n
  {
    seq(n, i => 0)
  }

  function Start(c: Config): State {
    State([], NoAc(), Zeros(|c.tbls|), c.interval)
  }

  /** Last coefficient of the band that becomes nonzero, or 0. */
  function EobOf(z: Block, ss: nat, k: int, al: nat): (e: nat)
    requires k < 64
    ensures forall i :: ss <= i <= k && Mag(z[i], al) == 1 ==> i <= e
    decreases k - ss
  {
    if k < ss then 0 else if Mag(z[k], al) == 1 then k else EobOf(z, ss, k - 1, al)
  }

  /** The coefficient ranges the coder checks. */
  predicate InRange(c: Config, st: State, b: McuBlock)
    requires ValidConfig(c) && ValidState(c, st) && b.ci < |c.tbls|
  {
    match c.kind
    case Sequential(limSe) => DcFits(b.z[0] - st.lastDc[b.ci]) && CoefsFit(b.z, 1, limSe, 0)
    case DcFirst(al) => DcFits(DcShift(b.z[0], al) - st.lastDc[b.ci])
    case AcFirst(ss, se, al) => CoefsFit(b.z, ss, se, al)
    case DcRefine(_) => true
    case AcRefine(_, _, _) => true
  }

  function More(st: State, items: seq<Item>): State {
    st.(ac := st.ac.(items := st.ac.items + items))
  }

  function SendBlock(c: Config, st: State, b: McuBlock): State
    requires ValidConfig(c) && ValidState(c, st) && b.ci < |c.tbls| && InRange(c, st, b)
  {
    var t := c.tbls[b.ci];
    match c.kind
    case Sequential(limSe) =>
      More(st, DcItems(t.dc, b.z[0] - st.lastDc[b.ci]) + AcItems(t.ac, b.z, 1, limSe, 0))
        .(lastDc := st.lastDc[b.ci := b.z[0]])
    case DcFirst(al) =>
      More(st, DcItems(t.dc, DcShift(b.z[0], al) - st.lastDc[b.ci])).(lastDc := st.lastDc[b.ci := DcShift(b.z[0], al)])
    case AcFirst(ss, se, al) => st.(ac := FirstItems(c.tbls[0].ac, b.z, ss, se, al, 0, st.ac))
    case DcRefine(al) => More(st, [Plain(BitAt(b.z[0], al), 1)])
    case AcRefine(ss, se, al) =>
      st.(ac := RefineItems(c.tbls[0].ac, b.z, ss, se, al, EobOf(b.z, ss, se, al), 0, [], st.ac))
  }

  lemma MoreSettled(c: Config, st: State, items: seq<Item>)
    requires ValidState(c, st)
    ensures ValidState(c, More(st, items)) && st.ac.items <= More(st, items).ac.items
  {
  }

  /** Every block leaves the state valid: in particular the correction bits fit. */
  lemma BlockValid(c: Config, st: State, b: McuBlock)
    requires ValidConfig(c) && ValidState(c, st) && b.ci < |c.tbls| && InRange(c, st, b)
    ensures var r := SendBlock(c, st, b); ValidState(c, r) && st.ac.items <= r.ac.items && r.done == st.done && r.toGo == st.toGo
  {
    hide Settled, DcItems, AcItems, CoefsFit, DcFits, Mag, DcShift, BitAt;
    match c.kind
    case Sequential(limSe) =>
      MoreSettled(c, st, DcItems(c.tbls[b.ci].dc, b.z[0] - st.lastDc[b.ci]) + AcItems(c.tbls[b.ci].ac, b.z, 1, limSe, 0));
    case DcFirst(al) =>
      MoreSettled(c, st, DcItems(c.tbls[b.ci].dc, DcShift(b.z[0], al) - st.lastDc[b.ci]));
    case AcFirst(ss, se, al) =>
      FirstSettled(c.tbls[0].ac, b.z, ss, se, al, 0, st.ac);
    case DcRefine(al) =>
      MoreSettled(c, st, [Plain(BitAt(b.z[0], al), 1)]);
    case AcRefine(ss, se, al) =>
      RefineSettled(c.tbls[0].ac, b.z, ss, se, al, EobOf(b.z, ss, se, al), 0, [], st.ac);
  }

  predicate McuInRange(c: Config, st: State, bs: seq<McuBlock>)
    requires ValidConfig(c) && ValidState(c, st) && ValidMcu(bs, |c.tbls|)
    decreases |bs|
  {
    bs == [] ||
    (InRange(c, st, bs[0]) && (BlockValid(c, st, bs[0]); McuInRange(c, SendBlock(c, st, bs[0]), bs[1..])))
  }

  function SendBlocks(c: Config, st: State, bs: seq<McuBlock>): (r: State)
    requires ValidConfig(c) && ValidState(c, st) && ValidMcu(bs, |c.tbls|) && McuInRange(c, st, bs)
    ensures ValidState(c, r) && st.ac.items <= r.ac.items && r.done == st.done && r.toGo == st.toGo
    decreases |bs|
  {
    if bs == [] then st else
    BlockValid(c, st, bs[0]);
    var s1 := SendBlock(c, st, bs[0]);
    var r := SendBlocks(c, s1, bs[1..]);
    PrefixTrans(st.ac.items, s1.ac.items, r.ac.items);
    r
  }

  function Flushed(c: Config, st: State): (r: State)
    requires ValidConfig(c) && ValidState(c, st)
    ensures ValidState(c, r) && r.ac.eobrun == 0 && r.ac.pend == [] && st.ac.items <= r.ac.items
  {
    EobSettled(c.tbls[0].ac, st.ac);
    st.(ac := EmitEob(c.tbls[0].ac, st.ac))
  }

  predicate DcScan(kind: Kind) {
    kind.Sequential? || kind.DcFirst? || kind.DcRefine?
  }

  function Restarted(c: Config, st: State): (r: State)
    requires ValidConfig(c) && ValidState(c, st)
    ensures ValidState(c, r)
  {
    var f := Flushed(c, st);
    State(f.done + [f.ac.items], NoAc(), if DcScan(c.kind) then Zeros(|c.tbls|) else f.lastDc, c.interval)
  }

  function BeforeMcu(c: Config, st: State): (r: State)
    requires ValidConfig(c) && ValidState(c, st)
    ensures ValidState(c, r)
  {
    if c.interval == 0 then st else
    var s1 := if st.toGo == 0 then Restarted(c, st) else st;
    s1.(toGo := s1.toGo - 1)
  }

  predicate ScanInRange(c: Config, st: State, ms: seq<seq<McuBlock>>)
    requires ValidConfig(c) && ValidState(c, st) && forall i :: 0 <= i < |ms| ==> ValidMcu(ms[i], |c.tbls|)
    decreases |ms|
  {
    ms == [] ||
    (McuInRange(c, BeforeMcu(c, st), ms[0]) && ScanInRange(c, SendBlocks(c, BeforeMcu(c, st), ms[0]), ms[1..]))
  }

  function SendMcus(c: Config, st: State, ms: seq<seq<McuBlock>>): (r: State)
    requires ValidConfig(c) && ValidState(c, st) && forall i :: 0 <= i < |ms| ==> ValidMcu(ms[i], |c.tbls|)
    requires ScanInRange(c, st, ms)
    ensures ValidState(c, r)
    decreases |ms|
  {
    if ms == [] then st else SendMcus(c, SendBlocks(c, BeforeMcu(c, st), ms[0]), ms[1..])
  }

  predicate ValidMcus(c: Config, ms: seq<seq<McuBlock>>) {
    forall i :: 0 <= i < |ms| ==> ValidMcu(ms[i], |c.tbls|)
  }

  lemma ScanStep(c: Config, st: State, ms: seq<seq<McuBlock>>)
    requires ValidConfig(c) && ValidState(c, st) && ValidMcus(c, ms) && ms != []
    ensures var s0 := BeforeMcu(c, st);
            && (McuInRange(c, s0, ms[0]) ==>
                  && ValidState(c, SendBlocks(c, s0, ms[0]))
                  && (ScanInRange(c, st, ms) <==> ScanInRange(c, SendBlocks(c, s0, ms[0]), ms[1..])))
            && (ScanInRange(c, st, ms) ==>
                  && McuInRange(c, s0, ms[0])
                  && SendMcus(c, st, ms) == SendMcus(c, SendBlocks(c, s0, ms[0]), ms[1..]))
  {
  }

  lemma ScanDone(c: Config, st: State)
    requires ValidConfig(c) && ValidState(c, st)
    ensures ScanInRange(c, st, []) && SendMcus(c, st, []) == st
  {
  }

  lemma StartValid(c: Config)
    requires ValidConfig(c)
    ensures ValidState(c, Start(c))
  {
  }

  /** All items of the scan. */
  function AllItems(c: Config, ms: seq<seq<McuBlock>>): seq<Item>
    requires ValidConfig(c) && (forall i :: 0 <= i < |ms| ==> ValidMcu(ms[i], |c.tbls|)) && ScanInRange(c, Start(c), ms)
  {
    Total(Flushed(c, SendMcus(c, Start(c), ms)))
  }

  /** The items of each segment of the scan. */
  function Segments(c: Config, ms: seq<seq<McuBlock>>): seq<seq<Item>>
    requires ValidConfig(c) && ValidMcus(c, ms) && ScanInRange(c, Start(c), ms)
  {
    var end := Flushed(c, SendMcus(c, Start(c), ms));
    end.done + [end.ac.items]
  }

  function Joined(segments: seq<seq<Item>>): seq<Item>
    decreases |segments|
  {
    if segments == [] then [] else Joined(segments[..|segments| - 1]) + segments[|segments| - 1]
  }

  /** Finished segments and the current one, end to end. */
  function Total(st: State): seq<Item> {
    Joined(st.done) + st.ac.items
  }

  lemma JoinedMore(segments: seq<seq<Item>>, s: seq<Item>)
    ensures Joined(segments + [s]) == Joined(segments) + s
  {
    assert (segments + [s])[..|segments|] == segments;
  }

  /** Coding only ever appends. */
  lemma {:induction false} TotalGrows(c: Config, st: State, ms: seq<seq<McuBlock>>)
    requires ValidConfig(c) && ValidState(c, st) && (forall i :: 0 <= i < |ms| ==> ValidMcu(ms[i], |c.tbls|)) && ScanInRange(c, st, ms)
    ensures Total(st) <= Total(SendMcus(c, st, ms))
    decreases |ms|
  {
    hide McuInRange, SendBlocks, Settled, EmitEob;
    if ms != [] {
      var s0 := BeforeMcu(c, st);
      var s1 := SendBlocks(c, s0, ms[0]);
      BeforeGrows(c, st);
      PrefixJoined(Joined(s0.done), s0.ac.items, s1.ac.items);
      TotalGrows(c, s1, ms[1..]);
      PrefixTrans(Total(st), Total(s0), Total(s1));
      PrefixTrans(Total(st), Total(s1), Total(SendMcus(c, st, ms)));
    }
  }

  lemma PrefixJoined(a: seq<Item>, b: seq<Item>, d: seq<Item>)
    requires b <= d
    ensures a + b <= a + d
  {
  }

  lemma BeforeGrows(c: Config, st: State)
    requires ValidConfig(c) && ValidState(c, st)
    ensures Total(st) <= Total(BeforeMcu(c, st))
  {
    hide EmitEob, Settled;
    var f := Flushed(c, st);
    PrefixJoined(Joined(st.done), st.ac.items, f.ac.items);
    JoinedMore(f.done, f.ac.items);
    assert Total(Restarted(c, st)) == Joined(f.done + [f.ac.items]) + [];
  }
}
