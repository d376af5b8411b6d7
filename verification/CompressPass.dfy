/** Whole passes over an image whose destination refuses and is drained in any pattern. */
module CompressPass {
  import opened Soundness
  import opened JpegTypes
  import opened ScanCode
  import opened ScanRuns
  import opened ScanTables
  import opened McuEncoder
  import opened Geometry
  import opened McuSequence
  import opened CoefController

  datatype PassResult = Complete | Unfinished | CannotCode | CannotSuspend

  /** How many of the first n calls find a destination that does not refuse. */
  function Willing(refusals: seq<bool>, n: nat): nat
    requires n <= |refusals|
  {
    if n == 0 then 0 else Willing(refusals, n - 1) + if refusals[n - 1] then 0 else 1
  }

  lemma NoneWilling(refusals: seq<bool>)
    ensures Willing(refusals, 0) == 0
  {
  }

  lemma OneMoreCall(refusals: seq<bool>, n: nat)
    requires n < |refusals|
    ensures Willing(refusals, n + 1) == Willing(refusals, n) + if refusals[n] then 0 else 1
  {
  }

  /** At the end of the image, exactly the scan's MCUs are committed, each once and in order. */
  lemma AllCommitted(c: Controller, enc: Encoder)
    requires c.Poised(enc, c.vertOffset, c.mcuCtr).Sound? && c.row == c.f.rows
    ensures enc.history == ScanMcus(c.order)
  {
  }

  /** The application drains a refused destination, or changes its mind; the encoder does not notice. */
  method Attend(c: Controller, enc: Encoder, drain: bool, refuses: bool)
    requires c.Poised(enc, c.vertOffset, c.mcuCtr).Sound?
    modifies enc.dest
    ensures c.Poised(enc, c.vertOffset, c.mcuCtr).Sound? && enc.dest.refuses == refuses
    ensures enc.dest.Valid() && enc.dest.Committed() == old(enc.dest.Committed())
  {
    if drain {
      enc.dest.Drain();
    }
    enc.dest.refuses := refuses;
  }

  /** The pending bits go out; at this point the destination must not refuse. */
  method Finish(c: Controller, enc: Encoder) returns (r: PassResult)
    requires c.Poised(enc, c.vertOffset, c.mcuCtr).Sound? && c.row == c.f.rows
    modifies enc, enc.dest`next, enc.dest`free, enc.dest`sent, enc.dest.buf
    ensures r.Complete? || (r.CannotSuspend? && enc.dest.refuses)
    ensures r.Complete? ==> Written(c, enc).Sound?
  {
    AllCommitted(c, enc);
    var ok := enc.FinishPass();
    r := if ok then Complete else CannotSuspend;
  }

  /** The destination holds exactly the coded scan, after what it held before the pass. */
  ghost function Written(c: Controller, enc: Encoder): Standing
    reads enc.dest, enc.dest.buf
  {
    if enc.Configured() && enc.sc.layout.Fits(ScanMcus(c.order)) && enc.dest.Valid()
       && ScanEncodable(enc.sc.layout, HuffCoder(enc.sc, enc.tb), ScanMcus(c.order))
       && enc.dest.Committed() == enc.before + ScanBytes(enc.sc.layout, HuffCoder(enc.sc, enc.tb), ScanMcus(c.order), 0)
    then Sound else Unsound
  }

  /** Compression is undone by decoding: what a completed pass has added to the destination decodes to the image's MCUs. */
  lemma CompressedScanDecodes(c: Controller, enc: Encoder, ts: HuffTables)
    requires Written(c, enc).Sound? && AllPrepared(enc.sc, ts, enc.tb)
    ensures enc.before <= enc.dest.Committed()
    ensures DecodeScan(enc.sc.layout, HuffReader(enc.sc, ts), enc.dest.Committed()[|enc.before|..], |ScanMcus(c.order)|, 0)
      == Some(ScanMcus(c.order))
  {
    CodedScanDecodes(enc.sc, ts, enc.tb, ScanMcus(c.order));
    hide ScanBytes, DecodeScan, HuffReader, HuffCoder, ScanMcus, ScanEncodable;
    var bytes := ScanBytes(enc.sc.layout, HuffCoder(enc.sc, enc.tb), ScanMcus(c.order), 0);
    assert (enc.before + bytes)[|enc.before|..] == bytes;
  }

  /**
   A single-pass compression. Before each call the application may have drained the destination or not, and the
   destination may refuse or not; if the pass completes, the bytes are those of the scan, whatever the pattern.
   */
  method SinglePass(c: Controller, enc: Encoder, drains: seq<bool>, refusals: seq<bool>) returns (r: PassResult)
    requires |drains| == |refusals| && c.row == 0 && c.Poised(enc, c.vertOffset, c.mcuCtr).Sound?
    modifies c`row, c`mcuCtr, c`vertOffset, c`mcuRows, c.buffer, enc, enc.dest, enc.dest.buf
    ensures r.Complete? ==> Written(c, enc).Sound?
    ensures r.CannotCode? ==> c.Uncodable(enc)
    ensures r.CannotSuspend? ==> enc.dest.refuses
    ensures r.Unfinished? ==> Willing(refusals, |refusals|) < c.f.rows
  {
    hide *;
    NoneWilling(refusals);
    var i: nat := 0;
    while i < |refusals| && c.row < c.f.rows
      invariant i <= |refusals| && Willing(refusals, i) <= c.row <= c.f.rows
      invariant c.Poised(enc, c.vertOffset, c.mcuCtr).Sound?
    {
      Attend(c, enc, drains[i], refusals[i]);
      var res := c.CompressData(enc);
      if res.Failed? {
        return CannotCode;
      }
      OneMoreCall(refusals, i);
      i := i + 1;
    }
    if c.row < c.f.rows {
      return Unfinished;
    }
    r := Finish(c, enc);
  }

  /** The first pass of a multi-pass compression, under the same conditions: the same bytes. */
  method BufferedPass(c: Controller, enc: Encoder, drains: seq<bool>, refusals: seq<bool>) returns (r: PassResult)
    requires |drains| == |refusals| && c.row == 0 && c.Poised(enc, c.vertOffset, c.mcuCtr).Sound?
    requires c.Loaded(0).Sound?
    modifies c`row, c`mcuCtr, c`vertOffset, c`mcuRows, c.buffer, c.whole, enc, enc.dest, enc.dest.buf
    ensures r.Complete? ==> Written(c, enc).Sound? && c.Loaded(c.f.rows).Sound?
    ensures r.CannotCode? ==> c.Uncodable(enc)
    ensures r.CannotSuspend? ==> enc.dest.refuses
    ensures r.Unfinished? ==> Willing(refusals, |refusals|) < c.f.rows
  {
    hide *;
    NoneWilling(refusals);
    var i: nat := 0;
    while i < |refusals| && c.row < c.f.rows
      invariant i <= |refusals| && Willing(refusals, i) <= c.row <= c.f.rows
      invariant c.Poised(enc, c.vertOffset, c.mcuCtr).Sound? && c.Loaded(c.row).Sound?
    {
      Attend(c, enc, drains[i], refusals[i]);
      ghost var strip := c.row;
      var res := c.CompressFirstPass(enc);
      if res.Failed? {
        return CannotCode;
      }
      c.FewerLoaded(strip + 1, c.row);
      OneMoreCall(refusals, i);
      i := i + 1;
    }
    if c.row < c.f.rows {
      return Unfinished;
    }
    r := Finish(c, enc);
  }

  /** A later pass over the buffered coefficients: the same bytes again. */
  method OutputPass(c: Controller, enc: Encoder, drains: seq<bool>, refusals: seq<bool>) returns (r: PassResult)
    requires |drains| == |refusals| && c.row == 0 && c.Poised(enc, c.vertOffset, c.mcuCtr).Sound?
    requires c.Loaded(c.f.rows).Sound?
    modifies c`row, c`mcuCtr, c`vertOffset, c`mcuRows, c.buffer, enc, enc.dest, enc.dest.buf
    ensures r.Complete? ==> Written(c, enc).Sound?
    ensures r.CannotCode? ==> c.Uncodable(enc)
    ensures r.CannotSuspend? ==> enc.dest.refuses
    ensures r.Unfinished? ==> Willing(refusals, |refusals|) < c.f.rows
  {
    hide *;
    NoneWilling(refusals);
    var i: nat := 0;
    while i < |refusals| && c.row < c.f.rows
      invariant i <= |refusals| && Willing(refusals, i) <= c.row <= c.f.rows
      invariant c.Poised(enc, c.vertOffset, c.mcuCtr).Sound? && c.Loaded(c.f.rows).Sound?
    {
      Attend(c, enc, drains[i], refusals[i]);
      c.FewerLoaded(c.f.rows, c.row + 1);
      var res := c.CompressOutput(enc);
      if res.Failed? {
        return CannotCode;
      }
      OneMoreCall(refusals, i);
      i := i + 1;
    }
    if c.row < c.f.rows {
      return Unfinished;
    }
    r := Finish(c, enc);
  }

  lemma SameArrays(c: Controller, d: Controller, n: nat)
    requires c.f == d.f && c.dct == d.dct && c.whole == d.whole && c.Loaded(n).Sound?
    ensures d.Loaded(n).Sound?
  {
  }

  /** Another scan of the image, of any components, from the arrays a first pass has filled. */
  method NextScan(c: Controller, plan: ScanPlan, enc: Encoder, drains: seq<bool>, refusals: seq<bool>)
    returns (r: PassResult, d: Controller)
    requires |drains| == |refusals| && c.Loaded(c.f.rows).Sound? && plan.Valid(c.f)
    requires enc.Configured() && enc.Valid() && enc.history == []
    requires enc.sc.layout.membership == Membership(plan.parts, |plan.parts|)
    modifies enc, enc.dest, enc.dest.buf
    ensures fresh(d) && d.f == c.f && d.plan == plan && d.dct == c.dct && d.Sized()
    ensures r.Complete? ==> Written(d, enc).Sound?
    ensures r.CannotCode? ==> d.Uncodable(enc)
    ensures r.CannotSuspend? ==> enc.dest.refuses
    ensures r.Unfinished? ==> Willing(refusals, |refusals|) < d.f.rows
  {
    hide Written, Willing, Membership, RunOk, HuffCoder;
    d := new Controller.OverArrays(c.f, plan, c.dct, c.whole);
    SameArrays(c, d, c.f.rows);
    d.StartPoised(enc);
    r := OutputPass(d, enc, drains, refusals);
  }
}
