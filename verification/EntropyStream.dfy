/** Entropy-coded segments: bits packed into octets with zero bytes stuffed after 0xFF (T.81 sections B.1.1.5, F.1.2.3). */
module EntropyStream {
  import opened BitStrings
  import opened JpegTypes

  const RST0 := 0xD0

  function Octet(s: seq<bool>): Byte
    requires |s| == 8
  {
    FromBitsBound(s);
    Pow2Constants();
    FromBits(s)
  }

  /** The octets for the whole bytes of s. */
  function Stuff(s: seq<bool>): seq<Byte> {
    if |s| < 8 then []
    else
      var c := Octet(s[..8]);
      (if c == 0xFF then [c, 0] else [c]) + Stuff(s[8..])
  }

  /** The bits of s after its last whole byte. */
  function Pending(s: seq<bool>): (p: seq<bool>)
    ensures |p| < 8
  {
    if |s| < 8 then s else Pending(s[8..])
  }

  /** Packing can be done piece by piece, carrying the pending bits over. */
  lemma {:induction false} StuffAppend(a: seq<bool>, b: seq<bool>)
    ensures Stuff(a + b) == Stuff(a) + Stuff(Pending(a) + b)
    ensures Pending(a + b) == Pending(Pending(a) + b)
  {
    if |a| < 8 {
      assert Stuff(a) == [];
    } else {
      assert (a + b)[..8] == a[..8];
      assert (a + b)[8..] == a[8..] + b;
      StuffAppend(a[8..], b);
    }
  }

  function Ones(n: nat): (s: seq<bool>)
    ensures |s| == n
  {
    seq(n, _ => true)
  }

  /** s, completed to whole bytes with one bits. */
  function Padded(s: seq<bool>): seq<bool> {
    s + Ones(if Pending(s) == [] then 0 else 8 - |Pending(s)|)
  }

  lemma {:induction false} PaddedWhole(s: seq<bool>)
    ensures Pending(Padded(s)) == []
  {
    StuffAppend(s, Ones(if Pending(s) == [] then 0 else 8 - |Pending(s)|));
  }

  /** Seven more ones complete the last byte, and no further byte. */
  lemma SevenOnes(s: seq<bool>)
    ensures Stuff(s + Ones(7)) == Stuff(Padded(s))
  {
    var p := Pending(s);
    StuffAppend(s, Ones(7));
    StuffAppend(s, Ones(if p == [] then 0 else 8 - |p|));
    if p == [] {
      assert p + Ones(7) == Ones(7);
      assert p + Ones(0) == [];
    } else {
      var a, b := p + Ones(7), p + Ones(8 - |p|);
      assert a[..8] == b[..8] == b;
      assert |a[8..]| < 8 && |b[8..]| < 8;
    }
  }

  // ----- Reading a segment back -----

  /** tail begins with a marker, or the data ends here. */
  ghost predicate AtMarker(tail: seq<Byte>) {
    tail == [] || (|tail| >= 2 && tail[0] == 0xFF && tail[1] != 0)
  }

  /** The bits of the entropy-coded segment at the start of the bytes, stuffed zeros removed. */
  function SegmentBits(bytes: seq<Byte>): seq<bool> {
    if bytes == [] then []
    else if bytes[0] != 0xFF then ToBits(bytes[0], 8) + SegmentBits(bytes[1..])
    else if |bytes| >= 2 && bytes[1] == 0 then ToBits(0xFF, 8) + SegmentBits(bytes[2..])
    else []
  }

  /** What follows that segment. */
  function AfterSegment(bytes: seq<Byte>): (r: seq<Byte>)
    ensures |r| <= |bytes|
  {
    if bytes == [] then []
    else if bytes[0] != 0xFF then AfterSegment(bytes[1..])
    else if |bytes| >= 2 && bytes[1] == 0 then AfterSegment(bytes[2..])
    else bytes
  }

  lemma ReadOctet(c: Byte, rest: seq<Byte>)
    ensures var bytes := (if c == 0xFF then [c, 0] else [c]) + rest;
      SegmentBits(bytes) == ToBits(c, 8) + SegmentBits(rest) && AfterSegment(bytes) == AfterSegment(rest)
  {
    if c == 0xFF {
      assert ([c, 0] + rest)[2..] == rest;
    } else {
      assert ([c] + rest)[1..] == rest;
    }
  }

  lemma ReadFirst(s: seq<bool>, tail: seq<Byte>)
    requires |s| >= 8
    ensures SegmentBits(Stuff(s) + tail) == s[..8] + SegmentBits(Stuff(s[8..]) + tail)
    ensures AfterSegment(Stuff(s) + tail) == AfterSegment(Stuff(s[8..]) + tail)
  {
    var c := Octet(s[..8]);
    ReadOctet(c, Stuff(s[8..]) + tail);
    assert Stuff(s) + tail == (if c == 0xFF then [c, 0] else [c]) + (Stuff(s[8..]) + tail);
    ToFromBits(s[..8]);
  }

  /** Unstuffing inverts stuffing: every data byte comes back, and the next marker is found where it is. */
  lemma {:induction false} UnstuffStuff(s: seq<bool>, tail: seq<Byte>)
    requires AtMarker(tail)
    ensures SegmentBits(Stuff(s) + tail) + Pending(s) == s
    ensures AfterSegment(Stuff(s) + tail) == tail
  {
    if |s| < 8 {
      assert Stuff(s) + tail == tail;
    } else {
      UnstuffStuff(s[8..], tail);
      ReadFirst(s, tail);
      var x, y := SegmentBits(Stuff(s[8..]) + tail), Pending(s[8..]);
      assert s[..8] + x + y == s[..8] + (x + y);
    }
  }

  /** A padded segment reads back as its bits followed by fewer than eight ones. */
  lemma PaddedReads(s: seq<bool>, tail: seq<Byte>) returns (pad: nat)
    requires AtMarker(tail)
    ensures pad < 8 && SegmentBits(Stuff(Padded(s)) + tail) == s + Ones(pad)
    ensures AfterSegment(Stuff(Padded(s)) + tail) == tail
  {
    pad := if Pending(s) == [] then 0 else 8 - |Pending(s)|;
    PaddedWhole(s);
    UnstuffStuff(Padded(s), tail);
    assert SegmentBits(Stuff(Padded(s)) + tail) + [] == SegmentBits(Stuff(Padded(s)) + tail);
  }

  /** In stuffed data, every 0xFF is followed by a zero. */
  lemma {:induction false} NoMarkerInside(s: seq<bool>, i: nat)
    requires i < |Stuff(s)| && Stuff(s)[i] == 0xFF
    ensures i + 1 < |Stuff(s)| && Stuff(s)[i + 1] == 0
  {
    var head := if Octet(s[..8]) == 0xFF then 2 else 1;
    if i >= head {
      NoMarkerInside(s[8..], i - head);
    }
  }
}
