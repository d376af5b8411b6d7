/** The scan coder with Huffman tables: which table codes which component, and the decoder built from the same tables. */
module ScanTables {
  import opened JpegTypes
  import opened HuffmanTable
  import opened BlockCode
  import opened ScanCode

  /** A scan: its layout, the table numbers of each component, and jpeg_natural_order. */
  datatype Scan = Scan(layout: Layout, dcNo: seq<nat>, acNo: seq<nat>, order: seq<nat>) {
    ghost predicate Valid() {
      && layout.Valid()
      && |dcNo| == |acNo| == layout.comps
      && (forall c :: 0 <= c < |dcNo| ==> dcNo[c] < NUM_HUFF_TBLS)
      && (forall c :: 0 <= c < |acNo| ==> acNo[c] < NUM_HUFF_TBLS)
      && IsZigzag(order)
    }
  }

  datatype HuffTables = HuffTables(dc: seq<HuffTable>, ac: seq<HuffTable>) {
    ghost predicate WellTyped() {
      && |dc| == |ac| == NUM_HUFF_TBLS
      && (forall t :: 0 <= t < NUM_HUFF_TBLS ==> dc[t].WellTyped())
      && (forall t :: 0 <= t < NUM_HUFF_TBLS ==> ac[t].WellTyped())
    }
  }

  datatype CodeTables = CodeTables(dc: seq<Derived>, ac: seq<Derived>) {
    ghost predicate WellTyped() {
      && |dc| == |ac| == NUM_HUFF_TBLS
      && (forall t :: 0 <= t < NUM_HUFF_TBLS ==> dc[t].WellTyped())
      && (forall t :: 0 <= t < NUM_HUFF_TBLS ==> ac[t].WellTyped())
    }
  }

  /** Component c's tables were accepted, and its derived tables come from them. */
  ghost predicate Prepared(sc: Scan, ts: HuffTables, tb: CodeTables, c: nat)
    requires sc.Valid() && ts.WellTyped() && tb.WellTyped() && c < sc.layout.comps
  {
    && Acceptable(true, ts.dc[sc.dcNo[c]]) && Derives(ts.dc[sc.dcNo[c]], tb.dc[sc.dcNo[c]])
    && Acceptable(false, ts.ac[sc.acNo[c]]) && Derives(ts.ac[sc.acNo[c]], tb.ac[sc.acNo[c]])
  }

  ghost predicate AllPrepared(sc: Scan, ts: HuffTables, tb: CodeTables) {
    && sc.Valid() && ts.WellTyped() && tb.WellTyped()
    && forall c :: 0 <= c < sc.layout.comps ==> Prepared(sc, ts, tb, c)
  }

  ghost function Bits(sc: Scan, tb: CodeTables, c: nat, lastDc: int, block: Block): seq<bool>
    requires sc.Valid() && tb.WellTyped()
  {
    if c < sc.layout.comps then
      ItemsBits(tb.dc[sc.dcNo[c]], tb.ac[sc.acNo[c]], BlockItems(sc.order, block, lastDc))
    else []
  }

  /** The coefficients are in range, and each symbol the block needs has a code. */
  ghost predicate Encodable(sc: Scan, tb: CodeTables, c: nat, lastDc: int, block: Block)
    requires sc.Valid() && tb.WellTyped()
  {
    && c < sc.layout.comps && InRange(sc.order, block, lastDc)
    && HaveCodes(tb.dc[sc.dcNo[c]], tb.ac[sc.acNo[c]], BlockItems(sc.order, block, lastDc))
  }

  ghost function HuffCoder(sc: Scan, tb: CodeTables): BlockCoder
    requires sc.Valid() && tb.WellTyped()
  {
    BlockCoder(
      (c: nat, lastDc: int, block: Block) => Bits(sc, tb, c, lastDc, block),
      (c: nat, lastDc: int, block: Block) => Encodable(sc, tb, c, lastDc, block))
  }

  ghost function Decode(sc: Scan, ts: HuffTables, c: nat, lastDc: int, s: seq<bool>): Decoded<Block>
    requires sc.Valid() && ts.WellTyped()
  {
    if c < sc.layout.comps then
      DecodeBlock(sc.order, TableReader(ts.dc[sc.dcNo[c]]), TableReader(ts.ac[sc.acNo[c]]), lastDc, s)
    else Corrupt
  }

  ghost function HuffReader(sc: Scan, ts: HuffTables): BlockReader
    requires sc.Valid() && ts.WellTyped()
  {
    (c: nat, lastDc: int, s: seq<bool>) => Decode(sc, ts, c, lastDc, s)
  }

  lemma ComponentInverts(sc: Scan, ts: HuffTables, tb: CodeTables, c: nat, lastDc: int, block: Block, rest: seq<bool>)
    requires AllPrepared(sc, ts, tb) && Encodable(sc, tb, c, lastDc, block)
    ensures Decode(sc, ts, c, lastDc, Bits(sc, tb, c, lastDc, block) + rest) == Got(block, rest)
  {
    assert Prepared(sc, ts, tb, c);
    var d, a := sc.dcNo[c], sc.acNo[c];
    DerivedReadable(true, ts.dc[d], tb.dc[d]);
    DerivedReadable(false, ts.ac[a], tb.ac[a]);
    BlockRoundTrip(sc.order, TableReader(ts.dc[d]), TableReader(ts.ac[a]), tb.dc[d], tb.ac[a], block, lastDc, rest);
  }

  /** The decoder inverts the coder on every block it can code. */
  lemma HuffInverts(sc: Scan, ts: HuffTables, tb: CodeTables)
    requires AllPrepared(sc, ts, tb)
    ensures Inverts(HuffCoder(sc, tb), HuffReader(sc, ts))
  {
    var bc, read := HuffCoder(sc, tb), HuffReader(sc, ts);
    forall c: nat, lastDc, block, rest ensures InvertsAt(bc, read, c, lastDc, block, rest) {
      if Encodable(sc, tb, c, lastDc, block) {
        ComponentInverts(sc, ts, tb, c, lastDc, block, rest);
      }
    }
  }

  /** End to end: whatever the tables, the blocks and the restart interval, the scan decodes to its MCUs. */
  lemma CodedScanDecodes(sc: Scan, ts: HuffTables, tb: CodeTables, mcus: seq<Mcu>)
    requires AllPrepared(sc, ts, tb) && sc.layout.Fits(mcus) && ScanEncodable(sc.layout, HuffCoder(sc, tb), mcus)
    ensures DecodeScan(sc.layout, HuffReader(sc, ts), ScanBytes(sc.layout, HuffCoder(sc, tb), mcus, 0), |mcus|, 0) == Some(mcus)
  {
    HuffInverts(sc, ts, tb);
    ScanRoundTrip(sc.layout, HuffCoder(sc, tb), HuffReader(sc, ts), mcus, 0);
  }
}
