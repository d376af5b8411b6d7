/** The output side of the Huffman encoder: a destination buffer that may refuse to be emptied, and bit emission into it. */
module HuffmanOutput {
  import opened BitStrings
  import opened JpegTypes
  import opened EntropyStream
  import opened BitBuffer

  datatype Outcome = Done | Suspended | Failed(error: Error)

  /**
   A destination manager. empty_output_buffer either takes the whole buffer or refuses until the
   application has drained what was committed; its answer does not change within one call of the encoder.
   */
  class Destination {
    const buf: array<Byte>
    var next: nat                 // next_output_byte
    var free: nat                 // free_in_buffer
    var sent: seq<Byte>
    var refuses: bool

    ghost predicate Valid()
      reads this
    {
      next + free == buf.Length && free > 0
    }

    /** Everything the encoder has handed over. */
    ghost function Committed(): seq<Byte>
      requires next <= buf.Length
      reads this, buf
    {
      sent + buf[..next]
    }

    constructor (size: nat)
      requires size > 0
      ensures Valid() && fresh(buf) && buf.Length == size && Committed() == [] && !refuses
    {
      buf := new Byte[size](_ => 0);
      next, free, sent, refuses := 0, size, [], false;
    }

    method EmptyOutputBuffer() returns (ok: bool)
      requires Valid()
      modifies `next, `free, `sent
      ensures ok == !refuses
      ensures ok ==> Valid() && next == 0 && sent == old(sent) + buf[..]
      ensures !ok ==> next == old(next) && free == old(free) && sent == old(sent)
    {
      ok := !refuses;
      if ok {
        sent := sent + buf[..];
        next, free := 0, buf.Length;
      }
    }

    /** Between calls, the application takes what was committed. */
    method Drain()
      requires Valid()
      modifies `next, `free, `sent
      ensures Valid() && next == 0 && Committed() == old(Committed())
    {
      sent := sent + buf[..next];
      next, free := 0, buf.Length;
    }
  }

  /** What a failed call must leave alone: a refusing destination as the caller knows it. */
  twostate predicate Kept(dest: Destination)
    requires old(dest.Valid())
    reads dest, dest.buf
  {
    dest.refuses ==>
      && dest.next == old(dest.next) && dest.free == old(dest.free)
      && dest.sent == old(dest.sent) && dest.buf[..dest.next] == old(dest.buf[..dest.next])
  }

  /** What one MCU changes, kept apart from the saved state until all its bits are out. */
  class WorkingState {
    const dest: Destination
    var next: nat                 // next_output_byte
    var free: nat                 // free_in_buffer
    var putBuffer: nat
    var putBits: nat
    var lastDc: seq<int>          // last_dc_val

    ghost var base: seq<Byte>     // bytes before the current restart interval
    ghost var seg: seq<bool>      // bits since

    ghost predicate HasRoom()
      reads this, dest
    {
      && dest.Valid()
      && next + free == dest.buf.Length && free > 0
      && (dest.refuses ==> dest.next <= next)
    }

    ghost function Bytes(): seq<Byte>
      requires next <= dest.buf.Length
      reads this, dest, dest.buf
    {
      dest.sent + dest.buf[..next]
    }

    ghost predicate Valid()
      reads this, dest, dest.buf
    {
      && HasRoom()
      && putBits == |Pending(seg)|
      && Holds(putBuffer, Pending(seg))
      && Bytes() == base + Stuff(seg)
    }

    /** Load up working state. */
    constructor (dest: Destination, putBuffer: nat, putBits: nat, lastDc: seq<int>, ghost base: seq<Byte>, ghost seg: seq<bool>)
      requires dest.Valid() && putBits == |Pending(seg)| && Holds(putBuffer, Pending(seg))
      requires dest.Committed() == base + Stuff(seg)
      ensures Valid() && this.dest == dest && this.lastDc == lastDc && this.base == base && this.seg == seg
    {
      this.dest, this.putBuffer, this.putBits, this.lastDc := dest, putBuffer, putBits, lastDc;
      this.next, this.free := dest.next, dest.free;
      this.base, this.seg := base, seg;
    }

    /** emit_byte with dump_buffer: false when the MCU must be suspended. */
    method EmitByte(val: Byte) returns (ok: bool)
      requires HasRoom()
      modifies this`next, this`free, dest`next, dest`free, dest`sent, dest.buf
      ensures ok ==> HasRoom() && Bytes() == old(Bytes()) + [val]
      ensures !ok ==> dest.refuses && old(free) == 1
      ensures Kept(dest)
    {
      dest.buf[next] := val;
      next, free := next + 1, free - 1;
      assert dest.buf[..next] == old(dest.buf[..next]) + [val];
      assert Bytes() == old(Bytes()) + [val];
      if free == 0 {
        ghost var whole := dest.buf[..];
        ok := dest.EmptyOutputBuffer();
        if !ok {
          return;
        }
        next, free := dest.next, dest.free;
        assert whole + dest.buf[..0] == whole;
      }
      ok := true;
    }

    /** One whole byte out of the accumulator, with its stuffed zero. */
    method EmitOctet(ghost bits: seq<bool>) returns (ok: bool)
      requires HasRoom() && Holds(putBuffer, bits) && |bits| >= 8
      modifies this`next, this`free, dest`next, dest`free, dest`sent, dest.buf
      ensures ok ==> HasRoom() && Bytes() == old(Bytes()) + Stuff(bits[..8])
      ensures !ok ==> dest.refuses
      ensures Kept(dest)
    {
      FirstByte(putBuffer, bits);
      var c: Byte := FirstEight(putBuffer);
      assert Stuff(bits[..8]) == (if c == 0xFF then [c, 0] else [c]) by {
        assert bits[..8][..8] == bits[..8];
        assert Stuff(bits[..8][8..]) == [];
      }
      ok := EmitByte(c);
      if !ok {
        return;
      }
      if c == 0xFF {
        ok := EmitByte(0);
        if !ok {
          return;
        }
        assert [c] + [0] == [c, 0];
        assert old(Bytes()) + [c] + [0] == old(Bytes()) + ([c] + [0]);
      }
    }

    /** Writes out the whole bytes of the accumulator. */
    method EmitOctets(ghost bits: seq<bool>) returns (ok: bool)
      requires HasRoom() && putBits == |bits| && Holds(putBuffer, bits)
      modifies this`next, this`free, this`putBuffer, this`putBits, dest`next, dest`free, dest`sent, dest.buf
      ensures ok ==> HasRoom() && putBits == |Pending(bits)| && Holds(putBuffer, Pending(bits))
      ensures ok ==> Bytes() == old(Bytes()) + Stuff(bits)
      ensures !ok ==> dest.refuses
      ensures Kept(dest)
    {
      ghost var left := bits;
      ghost var before := Bytes();
      assert before + Stuff(bits) == Bytes() + Stuff(left);
      while putBits >= 8
        invariant HasRoom() && putBits == |left| && Holds(putBuffer, left)
        invariant Bytes() + Stuff(left) == before + Stuff(bits) && Pending(left) == Pending(bits)
        invariant Kept(dest)
        decreases putBits
      {
        ghost var soFar := Bytes();
        ok := EmitOctet(left);
        if !ok {
          return;
        }
        StuffFirst(left);
        assert soFar + Stuff(left[..8]) + Stuff(left[8..]) == soFar + (Stuff(left[..8]) + Stuff(left[8..]));
        DropByte(putBuffer, left);
        putBuffer := Low(Shl(putBuffer, 8), 32);
        putBits := putBits - 8;
        left := left[8..];
      }
      assert Bytes() + [] == Bytes();
      ok := true;
    }

    /** Appends the size low-order bits of code. */
    method EmitBits(code: nat, size: nat) returns (r: Outcome)
      requires Valid() && size <= 16
      modifies this`next, this`free, this`putBuffer, this`putBits, this`seg, dest`next, dest`free, dest`sent, dest.buf
      ensures r.Done? ==> size > 0 && Valid() && seg == old(seg) + ToBits(code, size)
      ensures r.Suspended? ==> dest.refuses
      ensures r.Failed? <==> size == 0
      ensures Kept(dest)
    {
      if size == 0 {
        return Failed(MissingCode);
      }
      ghost var bits := Pending(seg) + ToBits(code, size);
      StuffMore(base, seg, ToBits(code, size));
      Merge(putBuffer, Pending(seg), code, size);
      putBits := putBits + size;
      putBuffer := Or(Shl(Low(code, size), WORD - putBits), putBuffer);
      var ok := EmitOctets(bits);
      if !ok {
        return Suspended;
      }
      seg := seg + ToBits(code, size);
      return Done;
    }

    /** Completes the byte under way with ones; the interval's bits are then all out. */
    method FlushBits() returns (ok: bool)
      requires Valid()
      modifies this`next, this`free, this`putBuffer, this`putBits, this`base, this`seg, dest`next, dest`free, dest`sent, dest.buf
      ensures ok ==> Valid() && base == old(base) + Stuff(Padded(old(seg))) && seg == []
      ensures !ok ==> dest.refuses
      ensures Kept(dest)
    {
      var r := EmitBits(0x7F, 7);
      if r != Done {
        return false;
      }
      SevenSet();
      SevenOnes(old(seg));
      base, seg := base + Stuff(seg), [];
      putBuffer, putBits := 0, 0;
      HoldsEmpty();
      assert base + [] == base;
      return true;
    }

    /** Flushes, emits the marker, and resets the predictions. */
    method EmitRestart(num: nat) returns (ok: bool)
      requires Valid() && num < 8
      modifies this, dest`next, dest`free, dest`sent, dest.buf
      ensures ok ==> Valid() && base == old(base) + Stuff(Padded(old(seg))) + [0xFF, RST0 + num] && seg == []
      ensures ok ==> lastDc == seq(|old(lastDc)|, _ => 0)
      ensures !ok ==> dest.refuses
      ensures Kept(dest)
    {
      ok := FlushBits();
      if !ok {
        return;
      }
      ghost var flushed := base;
      assert Bytes() == flushed;
      ok := EmitByte(0xFF);
      if !ok {
        return;
      }
      ok := EmitByte(RST0 + num);
      if !ok {
        return;
      }
      assert flushed + [0xFF] + [RST0 + num] == flushed + [0xFF, RST0 + num];
      base := flushed + [0xFF, RST0 + num];
      assert base + [] == base;
      lastDc := seq(|lastDc|, _ => 0);
    }
  }

  /** (put_buffer >> 16) & 0xFF */
  function FirstEight(buffer: nat): Byte {
    SplitAt(Shr(buffer, 16), 8);
    Pow2Constants();
    Low(Shr(buffer, 16), 8)
  }

  lemma StuffFirst(bits: seq<bool>)
    requires |bits| >= 8
    ensures Stuff(bits) == Stuff(bits[..8]) + Stuff(bits[8..])
    ensures Pending(bits) == Pending(bits[8..])
  {
    hide Stuff;
    assert bits == bits[..8] + bits[8..];
    StuffAppend(bits[..8], bits[8..]);
    assert bits[..8][8..] == [];
    assert [] + bits[8..] == bits[8..];
  }

  lemma StuffMore(base: seq<Byte>, seg: seq<bool>, more: seq<bool>)
    ensures base + Stuff(seg) + Stuff(Pending(seg) + more) == base + Stuff(seg + more)
    ensures Pending(Pending(seg) + more) == Pending(seg + more)
  {
    StuffAppend(seg, more);
    Associate(base, Stuff(seg), Stuff(Pending(seg) + more));
  }

  lemma Associate(a: seq<Byte>, b: seq<Byte>, c: seq<Byte>)
    ensures a + b + c == a + (b + c)
  {
  }

  lemma SevenSet()
    ensures ToBits(0x7F, 7) == Ones(7)
  {
    assert ToBits(0x7F, 7) == [true, true, true, true, true, true, true];
  }
}
