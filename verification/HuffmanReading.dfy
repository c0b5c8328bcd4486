/**
 The Huffman decoder (jdhuff.c; sections F.2.2 and G.2 of ITU-T T.81), reading the
 bits of a segment. It stops where bits or code words are missing.
 */
module HuffmanReading {
  import opened Bytes
  import opened BlockModel
  import opened ScanModel
  import opened HuffmanWords
  import opened HuffmanItems
  import opened HuffmanStream

  /** What was read, and the bits after it. */
  datatype Got<T> = Nothing | Got(v: T, rest: seq<bit>)

  /** The symbol below `n` whose word this is, or -1. */
  function SymbolAt(t: Table, w: seq<bit>, n: nat): (x: int)
    requires n <= 256
    ensures -1 <= x < n && (x >= 0 ==> HasWord(t, x) && Word(t, x) == w)
    ensures x < 0 ==> forall y :: 0 <= y < n ==> !(HasWord(t, y) && Word(t, y) == w)
  {
    if n == 0 then -1 else if HasWord(t, n - 1) && Word(t, n - 1) == w then n - 1 else SymbolAt(t, w, n - 1)
  }

  /** The symbol whose word comes next, with at least `l` bits. */
  function NextSymbol(t: Table, s: seq<bit>, l: nat): (g: Got<byte>)
    decreases 17 - l
  {
    if l > 16 || l > |s| then Nothing else
    var x := SymbolAt(t, s[..l], 256);
    if x >= 0 then Got(x, s[l..]) else NextSymbol(t, s, l + 1)
  }

  function NextBits(s: seq<bit>, n: nat): Got<nat> {
    if n > |s| then Nothing else Got(Number(s[..n]), s[n..])
  }

  /** A value of category `n`, its sign extended (figure F.12). */
  function NextValue(s: seq<bit>, n: nat): Got<int> {
    match NextBits(s, n)
    case Nothing => Nothing
    case Got(c, rest) => Got(ValueOf(c, n), rest)
  }

  function NextDiff(t: Table, s: seq<bit>): Got<int> {
    match NextSymbol(t, s, 1)
    case Nothing => Nothing
    case Got(n, rest) => NextValue(rest, n)
  }

  /** Positions past the block are taken for its last. */
  function Place(k: nat): (p: nat)
    ensures p < 64 && (k < 64 ==> p == k)
  {
    if k < 64 then k else 63
  }

  /** A block with what was read into it, and the end-of-block run that goes on after it. */
  datatype Filled = Stuck | Filled(z: Block, eobrun: nat, rest: seq<bit>)

  // ----- sequential blocks

  function ReadAc(t: Table, s: seq<bit>, z: Block, k: nat, se: nat): Filled
    requires se < 64
    decreases se + 1 - k
  {
    if k > se then Filled(z, 0, s) else
    match NextSymbol(t, s, 1)
    case Nothing => Stuck
    case Got(x, s1) =>
      var r, n := x / 16, x % 16;
      if n > 0 then
        match NextValue(s1, n)
        case Nothing => Stuck
        case Got(v, s2) => ReadAc(t, s2, z[Place(k + r) := ToCoef(v)], k + r + 1, se)
      else if r != 15 then Filled(z, 0, s1)
      else ReadAc(t, s1, z, k + 16, se)
  }

  // ----- progressive AC scans

  function ReadFirst(t: Table, s: seq<bit>, z: Block, k: nat, se: nat, al: nat): Filled
    requires se < 64
    decreases se + 1 - k
  {
    if k > se then Filled(z, 0, s) else
    match NextSymbol(t, s, 1)
    case Nothing => Stuck
    case Got(x, s1) =>
      var r, n := x / 16, x % 16;
      if n > 0 then
        match NextValue(s1, n)
        case Nothing => Stuck
        case Got(v, s2) => ReadFirst(t, s2, z[Place(k + r) := ToCoef(v * Pow2(al))], k + r + 1, se, al)
      else if r != 15 then
        match NextBits(s1, r)
        case Nothing => Stuck
        case Got(c, s2) => Filled(z, Pow2(r) + c - 1, s2)
      else ReadFirst(t, s1, z, k + 16, se, al)
  }

  function FirstBlock(t: Table, s: seq<bit>, eobrun: nat, z: Block, ss: nat, se: nat, al: nat): Filled
    requires se < 64
  {
    if eobrun > 0 then Filled(z, eobrun - 1, s) else ReadFirst(t, s, z, ss, se, al)
  }

  /** A correction bit raises the magnitude, unless that was done already. */
  function Corrected(c: int, b: nat, al: nat): int {
    if b == 1 && BitAt(c, al) == 0 then ToCoef(if c >= 0 then c + Pow2(al) else c - Pow2(al)) else c
  }

  /** Where passing over coefficients has led. */
  datatype Passed = Short | Passed(z: Block, k: nat, rest: seq<bit>)

  /** Passes over nonzero coefficients, correcting them, and over `r` zero ones. */
  function Pass(s: seq<bit>, z: Block, k: nat, r: nat, se: nat, al: nat): (p: Passed)
    requires se < 64
    ensures p.Passed? ==> k <= p.k
    decreases se + 1 - k
  {
    if k > se then Passed(z, k, s)
    else if z[k] != 0 then
      if s == [] then Short else Pass(s[1..], z[k := Corrected(z[k], s[0], al)], k + 1, r, se, al)
    else if r == 0 then Passed(z, k, s)
    else Pass(s, z, k + 1, r - 1, se, al)
  }

  /** The rest of a block after its last new coefficient: corrections only. */
  function ReadTail(s: seq<bit>, eobrun: nat, z: Block, k: nat, se: nat, al: nat): Filled
    requires se < 64
    decreases se + 1 - k
  {
    if k > se then Filled(z, eobrun, s)
    else if z[k] == 0 then ReadTail(s, eobrun, z, k + 1, se, al)
    else if s == [] then Stuck
    else ReadTail(s[1..], eobrun, z[k := Corrected(z[k], s[0], al)], k + 1, se, al)
  }

  function ReadRefine(t: Table, s: seq<bit>, z: Block, k: nat, se: nat, al: nat): Filled
    requires se < 64
    decreases se + 1 - k
  {
    if k > se then Filled(z, 0, s) else
    match NextSymbol(t, s, 1)
    case Nothing => Stuck
    case Got(x, s1) =>
      var r, n := x / 16, x % 16;
      if n > 0 then
        if s1 == [] then Stuck else
        match Pass(s1[1..], z, k, r, se, al)
        case Short => Stuck
        case Passed(z2, k2, s2) =>
          ReadRefine(t, s2, z2[Place(k2) := ToCoef(Signed(1 - s1[0], Pow2(al)))], k2 + 1, se, al)
      else if r != 15 then
        match NextBits(s1, r)
        case Nothing => Stuck
        case Got(c, s2) => ReadTail(s2, Pow2(r) + c - 1, z, k, se, al)
      else
        match Pass(s1, z, k, 15, se, al)
        case Short => Stuck
        case Passed(z2, k2, s2) => ReadRefine(t, s2, z2, k2 + 1, se, al)
  }

  function RefineBlock(t: Table, s: seq<bit>, eobrun: nat, z: Block, ss: nat, se: nat, al: nat): Filled
    requires se < 64
  {
    if eobrun > 0 then ReadTail(s, eobrun - 1, z, ss, se, al) else ReadRefine(t, s, z, ss, se, al)
  }

  // ----- blocks, MCUs and scans

  /** The derived tables of a decoder. */
  datatype Codes = Codes(dc: seq<Table>, ac: seq<Table>)

  predicate ValidCodes(t: Codes) {
    |t.dc| == NUM_HUFF_TBLS && |t.ac| == NUM_HUFF_TBLS
  }

  /** Bits left of the segment, and the segments after it. */
  datatype Reader = Reader(bits: seq<bit>, eobrun: nat, lastDc: seq<int>, toGo: nat, more: seq<seq<bit>>)

  predicate ValidReader(c: Config, rd: Reader) {
    |rd.lastDc| == |c.tbls|
  }

  datatype Result<T> = Fail | Ok(v: T, rd: Reader)

  /** Reads a block into `b`, which holds what earlier scans sent. */
  function DecodeBlock(c: Config, t: Codes, rd: Reader, b: McuBlock): (r: Result<McuBlock>)
    requires ValidConfig(c) && ValidCodes(t) && ValidReader(c, rd) && b.ci < |c.tbls|
    ensures r.Ok? ==> ValidReader(c, r.rd) && r.v.ci == b.ci
  {
    match c.kind
    case Sequential(limSe) =>
      (match NextDiff(t.dc[c.tbls[b.ci].dc], rd.bits)
       case Nothing => Fail
       case Got(d, s1) =>
         var v := rd.lastDc[b.ci] + d;
         match ReadAc(t.ac[c.tbls[b.ci].ac], s1, b.z[0 := ToCoef(v)], 1, limSe)
         case Stuck => Fail
         case Filled(z, _, s2) => Ok(b.(z := z), rd.(bits := s2, lastDc := rd.lastDc[b.ci := v])))
    case DcFirst(al) =>
      (match NextDiff(t.dc[c.tbls[b.ci].dc], rd.bits)
       case Nothing => Fail
       case Got(d, s1) =>
         var v := rd.lastDc[b.ci] + d;
         Ok(b.(z := b.z[0 := ToCoef(v * Pow2(al))]), rd.(bits := s1, lastDc := rd.lastDc[b.ci := v])))
    case DcRefine(al) =>
      if rd.bits == [] then Fail else
      Ok(b.(z := if rd.bits[0] == 1 then b.z[0 := SetBit(b.z[0], al)] else b.z), rd.(bits := rd.bits[1..]))
    case AcFirst(ss, se, al) => FilledBlock(rd, b, FirstBlock(t.ac[c.tbls[0].ac], rd.bits, rd.eobrun, b.z, ss, se, al))
    case AcRefine(ss, se, al) => FilledBlock(rd, b, RefineBlock(t.ac[c.tbls[0].ac], rd.bits, rd.eobrun, b.z, ss, se, al))
  }

  function FilledBlock(rd: Reader, b: McuBlock, f: Filled): (r: Result<McuBlock>)
    ensures r.Ok? ==> r.rd.lastDc == rd.lastDc && r.v.ci == b.ci
  {
    match f
    case Stuck => Fail
    case Filled(z, eobrun, s) => Ok(b.(z := z), rd.(bits := s, eobrun := eobrun))
  }

  function DecodeBlocks(c: Config, t: Codes, rd: Reader, bs: seq<McuBlock>): (r: Result<seq<McuBlock>>)
    requires ValidConfig(c) && ValidCodes(t) && ValidReader(c, rd) && ValidMcu(bs, |c.tbls|)
    ensures r.Ok? ==> ValidReader(c, r.rd)
    decreases |bs|
  {
    if bs == [] then Ok([], rd) else
    match DecodeBlock(c, t, rd, bs[0])
    case Fail => Fail
    case Ok(b, rd1) =>
      match DecodeBlocks(c, t, rd1, bs[1..])
      case Fail => Fail
      case Ok(rest, rd2) => Ok([b] + rest, rd2)
  }

  /** Goes on to the next segment if a restart is due. */
  function NextSegment(c: Config, rd: Reader): (r: Result<()>)
    requires ValidConfig(c) && ValidReader(c, rd)
    ensures r.Ok? ==> ValidReader(c, r.rd)
  {
    if c.interval == 0 then Ok((), rd)
    else if rd.toGo > 0 then Ok((), rd.(toGo := rd.toGo - 1))
    else if rd.more == [] then Fail
    else Ok((), Reader(rd.more[0], 0, Zeros(|c.tbls|), c.interval - 1, rd.more[1..]))
  }

  function DecodeMcus(c: Config, t: Codes, rd: Reader, ms: seq<seq<McuBlock>>): (r: Result<seq<seq<McuBlock>>>)
    requires ValidConfig(c) && ValidCodes(t) && ValidReader(c, rd) && ValidMcus(c, ms)
    decreases |ms|
  {
    if ms == [] then Ok([], rd) else
    match NextSegment(c, rd)
    case Fail => Fail
    case Ok(_, rd0) =>
      match DecodeBlocks(c, t, rd0, ms[0])
      case Fail => Fail
      case Ok(bs, rd1) =>
        match DecodeMcus(c, t, rd1, ms[1..])
        case Fail => Fail
        case Ok(rest, rd2) => Ok([bs] + rest, rd2)
  }

  /** A scan, given the bits of its segments. */
  function DecodeScan(c: Config, t: Codes, segments: seq<seq<bit>>, ms: seq<seq<McuBlock>>): Result<seq<seq<McuBlock>>>
    requires ValidConfig(c) && ValidCodes(t) && ValidMcus(c, ms) && segments != []
  {
    DecodeMcus(c, t, Reader(segments[0], 0, Zeros(|c.tbls|), c.interval, segments[1..]), ms)
  }
}
