/**
  pb_ostream_t: an output cursor with a byte count and a limit. Without a destination (a NULL
  callback) it is a sizing stream, which counts and does not write.
 */
module OutputStream {
  import opened Wire

  /** The state of a stream and of the buffer behind it */
  datatype Snapshot = Snapshot(sizing: bool, mem: seq<byte>, state: nat, max: nat, written: nat)

  /** The first position the stream may not write */
  function Limit(s: Snapshot): int {
    s.state + s.max - s.written
  }

  /** Bytes outside the stretch from lo to hi are the same. */
  ghost predicate SameOutside(a: seq<byte>, b: seq<byte>, lo: int, hi: int) {
    |a| == |b| && forall k | 0 <= k < |a| && !(lo <= k < hi) :: a[k] == b[k]
  }

  /**
    What an encoder of bytes r does to a stream. A sizing stream fails only if there is nothing to
    encode, and counts; a writing stream fails also if the bytes do not fit, and else holds
    exactly them, behind what it held. No byte at or past the limit ever changes.
   */
  ghost predicate Wrote(a: Snapshot, b: Snapshot, ok: bool, r: Option<seq<byte>>) {
    && b.sizing == a.sizing && b.max == a.max
    && if a.sizing then
        b.mem == a.mem && ok == r.Some? && (ok ==> b.written == a.written + |r.value|)
      else
        && ok == (r.Some? && a.written + |r.value| <= a.max)
        && Limit(b) == Limit(a) && a.state <= b.state && b.written <= b.max
        && (ok ==> b.written == a.written + |r.value| && b.state == a.state + |r.value|)
        && SameOutside(a.mem, b.mem, a.state, if ok then b.state else Limit(a))
        && (ok ==> b.state <= |b.mem| && b.mem[a.state..b.state] == r.value)
  }

  /** One encoder after another emits the concatenation. */
  lemma WroteThen(a: Snapshot, b: Snapshot, c: Snapshot, ok: bool, r: seq<byte>, s: Option<seq<byte>>)
    requires Wrote(a, b, true, Some(r)) && Wrote(b, c, ok, s)
    requires !a.sizing ==> a.written <= a.max && Limit(a) <= |a.mem|
    ensures Wrote(a, c, ok, if s.Some? then Some(r + s.value) else None)
  {
    if !a.sizing && ok {
      assert c.mem[a.state..b.state] == b.mem[a.state..b.state];
      assert c.mem[a.state..c.state] == c.mem[a.state..b.state] + c.mem[b.state..c.state];
    }
  }

  /** An encoder that failed has failed, whatever was to follow. */
  lemma WroteNot(a: Snapshot, b: Snapshot, r: Option<seq<byte>>, whole: Option<seq<byte>>)
    requires Wrote(a, b, false, r)
    requires whole.Some? ==> r.Some? && |r.value| <= |whole.value|
    ensures Wrote(a, b, false, whole)
  {
  }

  lemma WroteNothing(a: Snapshot)
    requires !a.sizing ==> a.written <= a.max && Limit(a) <= |a.mem|
    ensures Wrote(a, a, true, Some([]))
    ensures Wrote(a, a, false, None)
  {
  }

  class OStream {
    var dest: array?<byte>
    var state: nat
    var maxSize: nat
    var bytesWritten: nat

    ghost predicate Valid()
      reads this
    {
      dest != null ==> bytesWritten <= maxSize && state + (maxSize - bytesWritten) <= dest.Length
    }

    ghost function Snap(): (r: Snapshot)
      reads this, dest
      ensures r.sizing == (dest == null) && r.max == maxSize && r.written == bytesWritten
      ensures Valid() && dest != null ==> r.written <= r.max && Limit(r) <= |r.mem|
    {
      Snapshot(dest == null, if dest == null then [] else dest[..], state, maxSize, bytesWritten)
    }

    /** PB_OSTREAM_SIZING */
    constructor Sizing()
      ensures Valid() && dest == null && bytesWritten == 0
    {
      dest := null;
      state, maxSize, bytesWritten := 0, 0, 0;
    }

    /** pb_ostream_from_buffer */
    constructor FromBuffer(buf: array<byte>, bufsize: nat)
      requires bufsize <= buf.Length
      ensures Valid() && dest == buf && bytesWritten == 0 && state == 0 && maxSize == bufsize
    {
      dest := buf;
      state, maxSize, bytesWritten := 0, bufsize, 0;
    }

    /** buf_write */
    method BufWrite(buf: seq<byte>, count: nat)
      requires dest != null && count <= |buf| && state + count <= dest.Length
      modifies this`state, dest
      ensures state == old(state) + count
      ensures dest[..] == old(dest[..state]) + buf[..count] + old(dest[state + count..])
    {
      var from := state;
      state := from + count;
      for i := 0 to count
        invariant state == from + count
        invariant forall k | 0 <= k < i :: dest[from + k] == buf[k]
        invariant forall k | 0 <= k < dest.Length && !(from <= k < from + i) :: dest[k] == old(dest[k])
      {
        dest[from + i] := buf[i];
      }
    }

    /** pb_write of data, which a sizing stream does not look for in buf */
    method Write(buf: seq<byte>, count: nat, ghost data: seq<byte>) returns (ok: bool)
      requires Valid() && |data| == count && (dest != null ==> count <= |buf| && buf[..count] == data)
      modifies this, dest
      ensures Valid() && dest == old(dest)
      ensures Wrote(old(Snap()), Snap(), ok, Some(data))
    {
      if count > 0 && dest != null {
        if bytesWritten + count > maxSize {
          return false;
        }
        BufWrite(buf, count);
      }
      bytesWritten := bytesWritten + count;
      ok := true;
    }
  }
}
