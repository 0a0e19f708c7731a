/**
  Length-delimited and null-terminated messages: each is read back from a longer stream, up to
  its own end and no further.
 */
module Framing {
  import opened Words
  import opened Wire
  import opened WireProperties
  import opened Descriptors
  import opened EncoderSpec
  import opened DecoderSpec
  import opened Logical
  import opened Defaults
  import opened RoundTrip

  /** The struct is one that encodes, into less than 4 GiB. */
  ghost predicate Encodes(fields: seq<Field>, src: seq<Cell>) {
    && Shape(fields, src) && Terminated(fields, src)
    && EncMessage(fields, src).Some? && |EncMessage(fields, src).value| < U32
  }

  /** A null-terminated message followed by anything decodes as the message alone. */
  lemma NullTerminatedRoundTrip(fields: seq<Field>, src: seq<Cell>, dest: seq<Cell>, y: seq<byte>)
    requires WellFormed(fields) && ZeroDefaults(fields) && Encodes(fields, src) && Shape(fields, dest)
    ensures var r := Decode(fields, EncNullTerminated(fields, src).value + y, dest);
      r.Ok? && r.rest == y && SameMessage(fields, src, r.val)
  {
    hide DecMessage, EncMessage, Fresh, SameMessage, Shape, Terminated, WellFormed, ZeroDefaults;
    SetDefaultsFresh(fields, dest);
    MessageRoundTrip(fields, src, SetDefaults(fields, dest));
  }

  lemma DelimitedRoundTrip(fields: seq<Field>, src: seq<Cell>, dest: seq<Cell>, y: seq<byte>)
    requires WellFormed(fields) && ZeroDefaults(fields) && Encodes(fields, src) && Shape(fields, dest)
    ensures var r := DecDelimited(fields, EncDelimited(fields, src).value + y, dest, true);
      r.Ok? && r.rest == y && SameMessage(fields, src, r.val)
  {
    hide DecMessage, EncMessage, EncString, DecString, SameMessage, Shape, Terminated, WellFormed, ZeroDefaults;
    StringRoundTrip(EncMessage(fields, src).value, y);
    RoundTripTheorem(fields, src, dest);
  }

  /**
    pb_decode_delimited and pb_decode_delimited_noinit on the frame of any bytes: the first decodes
    them into defaults, the second into the struct as it is; bytes behind the frame stay.
   */
  lemma FrameDecoded(fields: seq<Field>, w: seq<byte>, dest: seq<Cell>, y: seq<byte>)
    requires |w| < 0x1_0000_0000
    ensures var r := DecMessage(fields, w, SetDefaults(fields, dest));
      DecDelimited(fields, EncString(w) + y, dest, true) == if r.Ok? then Ok(r.val, y) else Bad
    ensures var r := DecMessage(fields, w, dest);
      DecDelimited(fields, EncString(w) + y, dest, false) == if r.Ok? then Ok(r.val, y) else Bad
  {
    hide DecMessage, EncString, DecString, SetDefaults;
    StringRoundTrip(w, y);
  }

  /** A struct in its defaults needs no initialisation: the frame without it reads the same message. */
  lemma DelimitedNoinitRoundTrip(fields: seq<Field>, src: seq<Cell>, dest: seq<Cell>, y: seq<byte>)
    requires WellFormed(fields) && ZeroDefaults(fields) && Encodes(fields, src) && Fresh(fields, dest)
    ensures var r := DecDelimited(fields, EncDelimited(fields, src).value + y, dest, false);
      r.Ok? && r.rest == y && SameMessage(fields, src, r.val)
  {
    hide DecMessage, EncMessage, EncString, DecString, SameMessage, Shape, Terminated, WellFormed, ZeroDefaults;
    hide Fresh;
    StringRoundTrip(EncMessage(fields, src).value, y);
    MessageRoundTrip(fields, src, dest);
  }

  function EncFrames(fields: seq<Field>, messages: seq<seq<Cell>>): Option<seq<byte>> {
    if messages == [] then Some([])
    else Cat(EncDelimited(fields, messages[0]), EncFrames(fields, messages[1..]))
  }

  /** One pb_decode_delimited after another, each into a struct of its own */
  function ReadFrames(fields: seq<Field>, bs: seq<byte>, dests: seq<seq<Cell>>): Parsed<seq<seq<Cell>>>
    decreases |dests|
  {
    if dests == [] then Ok([], bs)
    else
      match DecDelimited(fields, bs, dests[0], true)
      case Bad => Bad
      case Ok(first, rest) => MapOk(ReadFrames(fields, rest, dests[1..]), (more: seq<seq<Cell>>) => [first] + more)
  }

  /** A stream of frames is read back message by message. */
  lemma {:induction false} FramesRoundTrip(
    fields: seq<Field>, messages: seq<seq<Cell>>, dests: seq<seq<Cell>>, y: seq<byte>)
    requires WellFormed(fields) && ZeroDefaults(fields) && |messages| == |dests|
    requires forall k | 0 <= k < |messages| :: Encodes(fields, messages[k]) && Shape(fields, dests[k])
    ensures EncFrames(fields, messages).Some?
    ensures var r := ReadFrames(fields, EncFrames(fields, messages).value + y, dests);
      && r.Ok? && r.rest == y && |r.val| == |messages|
      && forall k | 0 <= k < |messages| :: SameMessage(fields, messages[k], r.val[k])
    decreases |messages|
  {
    hide EncDelimited, DecDelimited, SameMessage, Shape, WellFormed, ZeroDefaults;
    if messages == [] {
      assert [] + y == y;
    } else {
      FramesRoundTrip(fields, messages[1..], dests[1..], y);
      var more := EncFrames(fields, messages[1..]).value;
      FrameEncodes(fields, messages[0]);
      var frame := EncDelimited(fields, messages[0]).value;
      assert EncFrames(fields, messages).value + y == frame + (more + y);
      DelimitedRoundTrip(fields, messages[0], dests[0], more + y);
      var rest := ReadFrames(fields, more + y, dests[1..]).val;
      forall k | 1 <= k < |messages|
        ensures SameMessage(fields, messages[k], rest[k - 1])
      {
        assert messages[k] == messages[1..][k - 1];
      }
    }
  }

  lemma FrameEncodes(fields: seq<Field>, src: seq<Cell>)
    requires Encodes(fields, src)
    ensures EncDelimited(fields, src).Some?
  {
  }
}
