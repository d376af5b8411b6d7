/**
 A Huffman-coded scan: MCUs, DC prediction and restart intervals (T.81 sections E.1.4, F.1.1.5.1, F.2.1.3).
 How one block is coded is a parameter here; ScanTables supplies the Huffman coder.
 */
module ScanCode {
  import opened JpegTypes
  import opened EntropyStream

  type Mcu = seq<Block>

  /** The scan parameters the entropy coder reads from the compression object. */
  datatype Layout = Layout(
    comps: nat,               // comps_in_scan
    membership: seq<nat>,     // MCU_membership: the component of each block of an MCU
    restartInterval: nat)     // 0 for no restarts
  {
    ghost predicate Valid() {
      |membership| > 0 && forall b :: 0 <= b < |membership| ==> membership[b] < comps
    }

    ghost predicate Fits(mcus: seq<Mcu>) {
      Valid() && forall i :: 0 <= i < |mcus| ==> |mcus[i]| == |membership|
    }
  }

  /** How a block is coded, given its component and the component's DC prediction. */
  datatype BlockCoder = BlockCoder(bits: (nat, int, Block) -> seq<bool>, ok: (nat, int, Block) -> bool)

  /** How a block is decoded, given the same. */
  type BlockReader = (nat, int, seq<bool>) -> Decoded<Block>

  // ----- One MCU -----

  /** DC predictions after block b. */
  function Predict(sc: Layout, dc: seq<int>, mcu: Mcu, b: nat): (r: seq<int>)
    requires sc.Valid() && |dc| == sc.comps && b < |mcu| == |sc.membership|
    ensures |r| == |dc|
  {
    dc[sc.membership[b] := mcu[b][0]]
  }

  /** The bits of blocks b onwards. */
  ghost function McuBits(sc: Layout, bc: BlockCoder, dc: seq<int>, mcu: Mcu, b: nat): seq<bool>
    requires sc.Valid() && |dc| == sc.comps && b <= |mcu| == |sc.membership|
    decreases |mcu| - b
  {
    if b == |mcu| then []
    else bc.bits(sc.membership[b], dc[sc.membership[b]], mcu[b]) + McuBits(sc, bc, Predict(sc, dc, mcu, b), mcu, b + 1)
  }

  /** DC predictions after blocks b onwards. */
  ghost function DcAfter(sc: Layout, dc: seq<int>, mcu: Mcu, b: nat): (r: seq<int>)
    requires sc.Valid() && |dc| == sc.comps && b <= |mcu| == |sc.membership|
    ensures |r| == |dc|
    decreases |mcu| - b
  {
    if b == |mcu| then dc else DcAfter(sc, Predict(sc, dc, mcu, b), mcu, b + 1)
  }

  /** Blocks b onwards can all be coded. */
  ghost predicate McuEncodable(sc: Layout, bc: BlockCoder, dc: seq<int>, mcu: Mcu, b: nat)
    requires sc.Valid() && |dc| == sc.comps && b <= |mcu| == |sc.membership|
    decreases |mcu| - b
  {
    b == |mcu| ||
    (bc.ok(sc.membership[b], dc[sc.membership[b]], mcu[b]) && McuEncodable(sc, bc, Predict(sc, dc, mcu, b), mcu, b + 1))
  }

  // ----- Several MCUs within one restart interval -----

  ghost function McusBits(sc: Layout, bc: BlockCoder, dc: seq<int>, mcus: seq<Mcu>): seq<bool>
    requires sc.Fits(mcus) && |dc| == sc.comps
    decreases |mcus|
  {
    if mcus == [] then []
    else McuBits(sc, bc, dc, mcus[0], 0) + McusBits(sc, bc, DcAfter(sc, dc, mcus[0], 0), mcus[1..])
  }

  ghost predicate McusEncodable(sc: Layout, bc: BlockCoder, dc: seq<int>, mcus: seq<Mcu>)
    requires sc.Fits(mcus) && |dc| == sc.comps
    decreases |mcus|
  {
    mcus == [] ||
    (McuEncodable(sc, bc, dc, mcus[0], 0) && McusEncodable(sc, bc, DcAfter(sc, dc, mcus[0], 0), mcus[1..]))
  }

  function ZeroDc(comps: nat): (dc: seq<int>)
    ensures |dc| == comps && forall c :: 0 <= c < comps ==> dc[c] == 0
  {
    seq(comps, _ => 0)
  }

  // ----- A whole scan, segment by segment -----

  /** The number of MCUs before the next restart marker, of the n that remain. */
  function FirstInterval(interval: nat, n: nat): (m: nat)
    ensures m <= n && (m < n ==> m == interval > 0)
  {
    if interval == 0 || n <= interval then n else interval
  }

  ghost function SegmentBytes(sc: Layout, bc: BlockCoder, mcus: seq<Mcu>): seq<Byte>
    requires sc.Fits(mcus)
  {
    Stuff(Padded(McusBits(sc, bc, ZeroDc(sc.comps), mcus)))
  }

  function Marker(k: nat): seq<Byte> {
    [0xFF, RST0 + k % 8]
  }

  /** Each interval is coded from zero predictions and padded with ones; the k-th marker is RST(k mod 8). */
  ghost function ScanBytes(sc: Layout, bc: BlockCoder, mcus: seq<Mcu>, k: nat): seq<Byte>
    requires sc.Fits(mcus)
    decreases |mcus|
  {
    var m := FirstInterval(sc.restartInterval, |mcus|);
    if m == |mcus| then SegmentBytes(sc, bc, mcus)
    else SegmentBytes(sc, bc, mcus[..m]) + (Marker(k) + ScanBytes(sc, bc, mcus[m..], k + 1))
  }

  /** The restart intervals of a scan: pieces of the given number of MCUs, of which only the last may be shorter. */
  ghost predicate Intervals(sc: Layout, mcus: seq<Mcu>, pieces: seq<seq<Mcu>>) {
    && pieces != [] && Joined(pieces) == mcus
    && (sc.restartInterval == 0 ==> |pieces| == 1)
    && (sc.restartInterval > 0 ==>
        (forall j :: 0 <= j < |pieces| - 1 ==> |pieces[j]| == sc.restartInterval)
        && |pieces[|pieces| - 1]| <= sc.restartInterval && (|pieces| > 1 ==> pieces[|pieces| - 1] != []))
  }

  ghost function Joined(pieces: seq<seq<Mcu>>): seq<Mcu> {
    if pieces == [] then [] else pieces[0] + Joined(pieces[1..])
  }

  /** The intervals one after the other, each coded by itself, with RST(k mod 8), RST(k + 1 mod 8) and so on between them. */
  ghost predicate Separated(sc: Layout, bc: BlockCoder, pieces: seq<seq<Mcu>>, k: nat, bytes: seq<Byte>)
    decreases |pieces|
  {
    && pieces != [] && sc.Fits(pieces[0])
    && if |pieces| == 1 then bytes == SegmentBytes(sc, bc, pieces[0])
       else
         var n := |SegmentBytes(sc, bc, pieces[0])|;
         && n + 2 <= |bytes| && bytes[..n] == SegmentBytes(sc, bc, pieces[0]) && bytes[n..n + 2] == [0xFF, 0xD0 + k % 8]
         && Separated(sc, bc, pieces[1..], k + 1, bytes[n + 2..])
  }

  lemma JoinedOne(pieces: seq<seq<Mcu>>)
    requires |pieces| == 1
    ensures Joined(pieces) == pieces[0]
  {
    assert pieces[1..] == [] && Joined([]) == [];
  }

  lemma IntervalsStep(sc: Layout, mcus: seq<Mcu>, m: nat, later: seq<seq<Mcu>>)
    requires 0 < m == sc.restartInterval < |mcus| && Intervals(sc, mcus[m..], later)
    ensures Intervals(sc, mcus, [mcus[..m]] + later)
  {
    var pieces := [mcus[..m]] + later;
    assert pieces[1..] == later && mcus[..m] + mcus[m..] == mcus;
    if |later| == 1 {
      JoinedOne(later);
    }
  }

  lemma SeparatedStep(sc: Layout, bc: BlockCoder, piece: seq<Mcu>, later: seq<seq<Mcu>>, k: nat, tail: seq<Byte>)
    requires sc.Fits(piece) && Separated(sc, bc, later, k + 1, tail)
    ensures Separated(sc, bc, [piece] + later, k, SegmentBytes(sc, bc, piece) + (Marker(k) + tail))
  {
    hide SegmentBytes;
    var pieces, first := [piece] + later, SegmentBytes(sc, bc, piece);
    var bytes, n := first + (Marker(k) + tail), |first|;
    assert pieces[1..] == later && bytes[..n] == first && bytes[n..n + 2] == Marker(k) && bytes[n + 2..] == tail;
  }

  /** The bytes of a scan are those of its restart intervals, separated by the markers. */
  lemma {:induction false} ScanIsSeparated(sc: Layout, bc: BlockCoder, mcus: seq<Mcu>, k: nat) returns (pieces: seq<seq<Mcu>>)
    requires sc.Fits(mcus)
    ensures Intervals(sc, mcus, pieces) && Separated(sc, bc, pieces, k, ScanBytes(sc, bc, mcus, k))
    decreases |mcus|
  {
    hide SegmentBytes, Marker;
    var m := FirstInterval(sc.restartInterval, |mcus|);
    if m == |mcus| {
      pieces := [mcus];
      JoinedOne(pieces);
    } else {
      hide Intervals, Separated;
      var later := ScanIsSeparated(sc, bc, mcus[m..], k + 1);
      IntervalsStep(sc, mcus, m, later);
      SeparatedStep(sc, bc, mcus[..m], later, k, ScanBytes(sc, bc, mcus[m..], k + 1));
      pieces := [mcus[..m]] + later;
    }
  }

  ghost predicate ScanEncodable(sc: Layout, bc: BlockCoder, mcus: seq<Mcu>)
    requires sc.Fits(mcus)
    decreases |mcus|
  {
    var m := FirstInterval(sc.restartInterval, |mcus|);
    McusEncodable(sc, bc, ZeroDc(sc.comps), mcus[..m]) && (m < |mcus| ==> ScanEncodable(sc, bc, mcus[m..]))
  }

  // ----- Decoding a scan -----

  /** Decode_MCU: blocks b onwards. */
  ghost function DecodeMcu(sc: Layout, read: BlockReader, dc: seq<int>, s: seq<bool>, b: nat): (r: Decoded<Mcu>)
    requires sc.Valid() && |dc| == sc.comps && b <= |sc.membership|
    ensures r.Got? ==> |r.value| == |sc.membership| - b
    decreases |sc.membership| - b
  {
    if b == |sc.membership| then Got([], s)
    else
      var c := sc.membership[b];
      var block := read(c, dc[c], s);
      if block.Corrupt? then Corrupt
      else
        var later := DecodeMcu(sc, read, dc[c := block.value[0]], block.rest, b + 1);
        if later.Corrupt? then Corrupt else Got([block.value] + later.value, later.rest)
  }

  ghost function DecodeMcus(sc: Layout, read: BlockReader, dc: seq<int>, s: seq<bool>, n: nat): Decoded<seq<Mcu>>
    requires sc.Valid() && |dc| == sc.comps
    decreases n
  {
    if n == 0 then Got([], s)
    else
      var mcu := DecodeMcu(sc, read, dc, s, 0);
      if mcu.Corrupt? then Corrupt
      else
        var later := DecodeMcus(sc, read, DcAfter(sc, dc, mcu.value, 0), mcu.rest, n - 1);
        if later.Corrupt? then Corrupt else Got([mcu.value] + later.value, later.rest)
  }

  /** Decode_scan: n MCUs from the bytes, expecting restart marker k next. */
  ghost function DecodeScan(sc: Layout, read: BlockReader, bytes: seq<Byte>, n: nat, k: nat): Option<seq<Mcu>>
    requires sc.Valid()
    decreases n
  {
    var m := FirstInterval(sc.restartInterval, n);
    var r := DecodeMcus(sc, read, ZeroDc(sc.comps), SegmentBits(bytes), m);
    if r.Corrupt? then None
    else if m == n then Some(r.value)
    else
      var tail := AfterSegment(bytes);
      if |tail| < 2 || tail[..2] != Marker(k) then None
      else
        var later := DecodeScan(sc, read, tail[2..], n - m, k + 1);
        if later.None? then None else Some(r.value + later.value)
  }

  // ----- Round trip -----

  ghost predicate InvertsAt(bc: BlockCoder, read: BlockReader, c: nat, lastDc: int, block: Block, rest: seq<bool>) {
    bc.ok(c, lastDc, block) ==> read(c, lastDc, bc.bits(c, lastDc, block) + rest) == Got(block, rest)
  }

  /** The reader takes back every block that can be coded, whatever follows it. */
  ghost predicate Inverts(bc: BlockCoder, read: BlockReader) {
    forall c, lastDc, block, rest :: InvertsAt(bc, read, c, lastDc, block, rest)
  }

  lemma {:induction false} McuRoundTrip(sc: Layout, bc: BlockCoder, read: BlockReader, dc: seq<int>, mcu: Mcu, b: nat, rest: seq<bool>)
    requires sc.Valid() && |dc| == sc.comps && b <= |mcu| == |sc.membership|
    requires Inverts(bc, read) && McuEncodable(sc, bc, dc, mcu, b)
    ensures DecodeMcu(sc, read, dc, McuBits(sc, bc, dc, mcu, b) + rest, b) == Got(mcu[b..], rest)
    decreases |mcu| - b
  {
    if b == |mcu| {
      assert McuBits(sc, bc, dc, mcu, b) + rest == rest;
    } else {
      var c := sc.membership[b];
      var x := bc.bits(c, dc[c], mcu[b]);
      var y := McuBits(sc, bc, Predict(sc, dc, mcu, b), mcu, b + 1);
      assert InvertsAt(bc, read, c, dc[c], mcu[b], y + rest);
      McuRoundTrip(sc, bc, read, Predict(sc, dc, mcu, b), mcu, b + 1, rest);
      assert x + y + rest == x + (y + rest);
      assert [mcu[b]] + mcu[b + 1..] == mcu[b..];
    }
  }

  lemma {:induction false} McusRoundTrip(sc: Layout, bc: BlockCoder, read: BlockReader, dc: seq<int>, mcus: seq<Mcu>, rest: seq<bool>)
    requires sc.Fits(mcus) && |dc| == sc.comps && Inverts(bc, read) && McusEncodable(sc, bc, dc, mcus)
    ensures DecodeMcus(sc, read, dc, McusBits(sc, bc, dc, mcus) + rest, |mcus|) == Got(mcus, rest)
    decreases |mcus|
  {
    if mcus == [] {
      assert McusBits(sc, bc, dc, mcus) + rest == rest;
    } else {
      var x := McuBits(sc, bc, dc, mcus[0], 0);
      var y := McusBits(sc, bc, DcAfter(sc, dc, mcus[0], 0), mcus[1..]);
      McuRoundTrip(sc, bc, read, dc, mcus[0], 0, y + rest);
      assert mcus[0][0..] == mcus[0];
      McusRoundTrip(sc, bc, read, DcAfter(sc, dc, mcus[0], 0), mcus[1..], rest);
      assert x + y + rest == x + (y + rest);
      assert [mcus[0]] + mcus[1..] == mcus;
      assert |mcus| - 1 == |mcus[1..]|;
    }
  }

  /** The bits of one coded segment come back with only its padding after them. */
  lemma SegmentRoundTrip(sc: Layout, bc: BlockCoder, read: BlockReader, mcus: seq<Mcu>, tail: seq<Byte>)
    requires sc.Fits(mcus) && Inverts(bc, read) && AtMarker(tail) && McusEncodable(sc, bc, ZeroDc(sc.comps), mcus)
    ensures var bytes := SegmentBytes(sc, bc, mcus) + tail;
      var r := DecodeMcus(sc, read, ZeroDc(sc.comps), SegmentBits(bytes), |mcus|);
      r.Got? && r.value == mcus && |r.rest| < 8 && false !in r.rest && AfterSegment(bytes) == tail
  {
    var s := McusBits(sc, bc, ZeroDc(sc.comps), mcus);
    var pad := PaddedReads(s, tail);
    McusRoundTrip(sc, bc, read, ZeroDc(sc.comps), mcus, Ones(pad));
  }

  /** The whole scan decodes to the MCUs that were coded, whatever the restart interval. */
  lemma {:induction false} ScanRoundTrip(sc: Layout, bc: BlockCoder, read: BlockReader, mcus: seq<Mcu>, k: nat)
    requires sc.Fits(mcus) && Inverts(bc, read) && ScanEncodable(sc, bc, mcus)
    ensures DecodeScan(sc, read, ScanBytes(sc, bc, mcus, k), |mcus|, k) == Some(mcus)
    decreases |mcus|
  {
    hide SegmentBytes, SegmentBits, AfterSegment, DecodeMcus, McusEncodable, FirstInterval, Inverts;
    var m := FirstInterval(sc.restartInterval, |mcus|);
    if m == |mcus| {
      assert mcus[..m] == mcus;
      SegmentRoundTrip(sc, bc, read, mcus, []);
      assert SegmentBytes(sc, bc, mcus) + [] == SegmentBytes(sc, bc, mcus);
    } else {
      var tail := Marker(k) + ScanBytes(sc, bc, mcus[m..], k + 1);
      SegmentRoundTrip(sc, bc, read, mcus[..m], tail);
      ScanRoundTrip(sc, bc, read, mcus[m..], k + 1);
      assert tail[2..] == ScanBytes(sc, bc, mcus[m..], k + 1);
      assert tail[..2] == Marker(k);
      assert |mcus| - m == |mcus[m..]|;
      assert mcus[..m] + mcus[m..] == mcus;
    }
  }
}
