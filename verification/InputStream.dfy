/**
  pb_istream_t over a memory buffer: a cursor and the number of bytes that may still be read.
  A substream is a stream of its own that is confined to a window of its parent.
 */
module InputStream {
  import opened Words
  import opened Wire

  class IStream {
    const data: seq<byte>       // the buffer, which the library only reads
    ghost const end: nat        // no read of this stream may go past this position
    var state: nat
    var bytesLeft: nat

    ghost predicate Valid()
      reads this
    {
      state + bytesLeft <= end <= |data|
    }

    /** The bytes the stream will still give */
    ghost function Window(): (r: seq<byte>)
      requires Valid()
      reads this
      ensures |r| == bytesLeft
    {
      data[state..state + bytesLeft]
    }

    /** pb_istream_from_buffer */
    constructor (buf: seq<byte>, bufsize: nat)
      requires bufsize <= |buf|
      ensures Valid() && data == buf && state == 0 && bytesLeft == bufsize == end
    {
      data, end := buf, bufsize;
      state, bytesLeft := 0, bufsize;
    }

    /** The substream that pb_make_string_substream copies from its parent, before it is limited */
    constructor Within(parent: IStream, size: nat)
      requires parent.Valid() && size <= parent.bytesLeft
      ensures Valid() && data == parent.data && state == parent.state && bytesLeft == size
      ensures end == parent.state + size && Window() == parent.Window()[..size]
    {
      data, end := parent.data, parent.state + size;
      state, bytesLeft := parent.state, size;
    }

    /** buf_read; a NULL buffer skips */
    method BufRead(buf: array?<byte>, count: nat)
      requires state + count <= end <= |data| && (buf != null ==> count <= buf.Length)
      modifies this`state, buf
      ensures state == old(state) + count
      ensures buf != null ==> buf[..] == data[old(state)..state] + old(buf[count..])
    {
      var source := state;
      state := state + count;
      if buf != null {
        for i := 0 to count
          invariant state == source + count
          invariant forall k | 0 <= k < i :: buf[k] == data[source + k]
          invariant forall k | i <= k < buf.Length :: buf[k] == old(buf[k])
        {
          buf[i] := data[source + i];
        }
      }
    }

    /** pb_read */
    method Read(buf: array?<byte>, count: nat) returns (ok: bool)
      requires Valid() && (buf != null ==> count <= buf.Length)
      modifies this, buf
      ensures Valid() && ok == Take(old(Window()), count).Ok?
      ensures state + bytesLeft == old(state + bytesLeft)
      ensures ok ==> Window() == Take(old(Window()), count).rest
      ensures ok && buf != null ==> buf[..] == Take(old(Window()), count).val + old(buf[count..])
    {
      ghost var w := Window();
      if count == 0 {
        return true;
      }
      if bytesLeft < count {
        return false;
      }
      BufRead(buf, count);
      bytesLeft := bytesLeft - count;
      ok := true;
    }

    /** pb_readbyte */
    method ReadByte() returns (ok: bool, b: byte)
      requires Valid()
      modifies this
      ensures Valid() && state + bytesLeft == old(state + bytesLeft)
      ensures ok == (old(Window()) != [])
      ensures ok ==> b == old(Window())[0] && Window() == old(Window())[1..]
      ensures !ok ==> Window() == old(Window()) && bytesLeft == 0
    {
      if bytesLeft == 0 {
        return false, 0;
      }
      b := data[state];
      state := state + 1;
      bytesLeft := bytesLeft - 1;
      ok := true;
    }

    /** pb_decode_varint32_eof */
    method DecodeVarint32Eof() returns (ok: bool, dest: nat, eof: bool)
      requires Valid()
      modifies this
      ensures Valid() && state + bytesLeft == old(state + bytesLeft)
      ensures ok == DecVarint32(old(Window())).Ok? && eof == (old(Window()) == [])
      ensures ok ==> dest == DecVarint32(old(Window())).val && Window() == DecVarint32(old(Window())).rest
      ensures eof ==> Window() == []
    {
      hide BitOr, Shl, NextBitpos, Overflows32;
      dest := 0;
      ghost var w := Window();
      var b;
      ok, b := ReadByte();
      eof := !ok && bytesLeft == 0;
      if !ok {
        return;
      }
      if b < 128 {
        dest := b;
        return;
      }
      var bitpos: nat := 7;
      var result: nat := b % 128;
      while b >= 128
        invariant Valid() && state + bytesLeft == old(state + bytesLeft)
        invariant b >= 128 ==> DecVarint32(w) == DecVarint32From(Window(), bitpos, result)
        invariant b < 128 ==>
          DecVarint32(w) == if bitpos == 35 && b / 16 % 8 != 0 then Bad else Ok(result, Window())
        decreases bytesLeft, if b >= 128 then 1 else 0
      {
        ok, b := ReadByte();
        if !ok {
          return;
        }
        if bitpos >= 32 {
          var signExtension := if bitpos < 63 then 0xFF else 0x01;
          OverflowTest(b, bitpos, result);
          if b % 128 != 0 && (result / 0x8000_0000 == 0 || b != signExtension) {
            return false, 0, false;
          }
        } else {
          result := BitOr(result, Shl(b % 128, bitpos) % U32);
        }
        bitpos := NextBitpos(bitpos);
      }
      if bitpos == 35 && b / 16 % 8 != 0 {
        return false, 0, false;
      }
      dest := result;
    }

    /** pb_decode_varint */
    method DecodeVarint() returns (ok: bool, dest: nat)
      requires Valid()
      modifies this
      ensures Valid() && state + bytesLeft == old(state + bytesLeft)
      ensures ok == DecVarint(old(Window())).Ok?
      ensures ok ==> dest == DecVarint(old(Window())).val && Window() == DecVarint(old(Window())).rest
    {
      hide BitOr, Shl;
      dest := 0;
      ghost var w := Window();
      var bitpos: nat := 0;
      var result: nat := 0;
      var b: byte := 128;
      while b >= 128
        invariant Valid() && state + bytesLeft == old(state + bytesLeft)
        invariant DecVarint(w) == if b >= 128 then DecVarintFrom(Window(), bitpos, result) else Ok(result, Window())
        decreases bytesLeft, if b >= 128 then 1 else 0
      {
        if bitpos >= 64 {
          return false, 0;
        }
        ok, b := ReadByte();
        if !ok {
          return;
        }
        result := BitOr(result, Shl(b % 128, bitpos) % U64);
        bitpos := bitpos + 7;
      }
      ok, dest := true, result;
    }

    /** pb_skip_varint */
    method SkipVarint() returns (ok: bool)
      requires Valid()
      modifies this
      ensures Valid() && state + bytesLeft == old(state + bytesLeft)
      ensures ok == Wire.SkipVarint(old(Window())).Ok?
      ensures ok ==> Window() == Wire.SkipVarint(old(Window())).rest
    {
      ghost var w := Window();
      var buf := new byte[1];
      buf[0] := 128;
      while buf[0] >= 128
        invariant Valid() && state + bytesLeft == old(state + bytesLeft)
        invariant Wire.SkipVarint(w) == if buf[0] >= 128 then Wire.SkipVarint(Window()) else Ok((), Window())
        decreases bytesLeft, if buf[0] >= 128 then 1 else 0
      {
        ghost var before := Window();
        ok := Read(buf, 1);
        if !ok {
          return;
        }
        assert before[..1] == [before[0]] && buf[..] == [before[0]];
      }
      ok := true;
    }

    /** pb_skip_string */
    method SkipString() returns (ok: bool)
      requires Valid()
      modifies this
      ensures Valid() && state + bytesLeft == old(state + bytesLeft)
      ensures ok == DecString(old(Window())).Ok?
      ensures ok ==> Window() == DecString(old(Window())).rest
    {
      hide DecVarint32;
      var length, _ := 0, false;
      var eof;
      ok, length, eof := DecodeVarint32Eof();
      if ok {
        ok := Read(null, length);
      }
    }

    /** pb_decode_tag */
    method DecodeTag() returns (ok: bool, wt: nat, tag: nat, eof: bool)
      requires Valid()
      modifies this
      ensures Valid() && state + bytesLeft == old(state + bytesLeft)
      ensures var r := DecTag(old(Window()));
        && ok == r.Tag? && (!ok ==> eof == r.End?)
        && (ok ==> wt == r.wt && tag == r.tag && Window() == r.rest)
        && (!ok && eof ==> Window() == r.rest)
    {
      hide DecVarint32;
      wt, tag := 0, 0;
      var temp;
      ok, temp, eof := DecodeVarint32Eof();
      if !ok {
        return;
      }
      if temp == 0 {
        return false, 0, 0, true;
      }
      tag := temp / 8;
      wt := temp % 8;
    }

    /** pb_skip_field */
    method SkipField(wt: nat) returns (ok: bool)
      requires Valid()
      modifies this
      ensures Valid() && state + bytesLeft == old(state + bytesLeft)
      ensures ok == Wire.SkipField(wt, old(Window())).Ok?
      ensures ok ==> Window() == Wire.SkipField(wt, old(Window())).rest
    {
      hide DecString, Wire.SkipVarint;
      if wt == WT_VARINT {
        ok := SkipVarint();
      } else if wt == WT_64BIT {
        ok := Read(null, 8);
      } else if wt == WT_STRING {
        ok := SkipString();
      } else if wt == WT_32BIT {
        ok := Read(null, 4);
      } else {
        ok := false;
      }
    }

    /** pb_make_string_substream: the announced bytes are taken from this stream's count only. */
    method MakeSubstream() returns (ok: bool, sub: IStream)
      requires Valid()
      modifies this
      ensures Valid() && state + bytesLeft <= old(state + bytesLeft)
      ensures ok == DecString(old(Window())).Ok?
      ensures ok ==> fresh(sub) && sub.Valid() && sub.data == data
      ensures ok ==> sub.Window() == DecString(old(Window())).val
      ensures ok ==> sub.state == state && sub.end == state + sub.bytesLeft
      ensures ok ==> sub.end + bytesLeft == old(state + bytesLeft)
      ensures ok ==> data[sub.end..sub.end + bytesLeft] == DecString(old(Window())).rest
      ensures !ok ==> sub == this
    {
      hide DecVarint32;
      ghost var w := Window();
      sub := this;
      var size, eof;
      ok, size, eof := DecodeVarint32Eof();
      if !ok {
        return;
      }
      if bytesLeft < size {
        return false, this;
      }
      ghost var rest := Window();
      sub := new IStream.Within(this, size);
      assert rest[size..] == data[state + size..state + bytesLeft];
      bytesLeft := bytesLeft - size;
    }

    /**
      pb_close_string_substream: what is left of the substream is skipped, and this stream goes on
      behind it. That is the end of the window, unless a reader of the substream gave up on a
      window of its own.
     */
    method CloseSubstream(sub: IStream) returns (ok: bool)
      requires Valid() && sub.Valid() && sub != this && sub.data == data && sub.end + bytesLeft <= end
      modifies this, sub
      ensures ok && Valid() && state == old(sub.state + sub.bytesLeft) && bytesLeft == old(bytesLeft)
      ensures Window() == data[state..state + bytesLeft]
    {
      if sub.bytesLeft != 0 {
        ok := sub.Read(null, sub.bytesLeft);
        if !ok {
          return;
        }
      }
      state := sub.state;
      ok := true;
    }
  }

  lemma OverflowTest(b: byte, bitpos: nat, result: nat)
    ensures Overflows32(b, bitpos, result) <==>
      b % 128 != 0 && (result / 0x8000_0000 == 0 || b != if bitpos < 63 then 0xFF else 0x01)
  {
  }
}
