/**
  Decoding is by whole fields: what a field leaves in the struct does not depend on the bytes
  behind it.
 */
module Locality {
  import opened Words
  import opened Wire
  import opened WireProperties
  import opened Descriptors
  import opened DecoderSpec

  // ---- Fields do not look behind themselves ----

  lemma DecBytesLocal(f: Field, bs: seq<byte>, y: seq<byte>, prior: Value)
    ensures Extends(DecBytes(f, bs), DecBytes(f, bs + y), y)
    ensures Extends(DecChars(f, bs, prior), DecChars(f, bs + y, prior), y)
    ensures Extends(DecFixedBytes(f, bs), DecFixedBytes(f, bs + y), y)
  {
    hide DecVarint32, WriteString;
    DecVarint32Local(bs, y);
    if DecVarint32(bs).Ok? {
      var Ok(size, rest) := DecVarint32(bs);
      TakeLocal(rest, y, size);
    }
  }

  lemma DecIntegerLocal(size: nat, bs: seq<byte>, y: seq<byte>)
    ensures Extends(DecSignedField(size, bs), DecSignedField(size, bs + y), y)
    ensures Extends(DecUnsignedField(size, bs), DecUnsignedField(size, bs + y), y)
    ensures Extends(DecZigzagField(size, bs), DecZigzagField(size, bs + y), y)
  {
    hide Signed, Unzigzag, IntModulus, DecVarintFrom;
    DecVarintLocal(bs, y, 0, 0);
  }

  lemma DecFixedLocal(bs: seq<byte>, y: seq<byte>)
    ensures Extends(DecFixed32(bs), DecFixed32(bs + y), y)
    ensures Extends(DecFixed64(bs), DecFixed64(bs + y), y)
  {
    hide Word32;
    if |bs| >= 4 {
      assert (bs + y)[4..] == bs[4..] + y;
    }
    if |bs| >= 8 {
      assert (bs + y)[8..] == bs[8..] + y;
    }
  }

  lemma DecValueLocal(f: Field, bs: seq<byte>, y: seq<byte>, prior: Value)
    ensures Extends(DecValue(f, bs, prior), DecValue(f, bs + y, prior), y)
  {
    hide DecVarint32, DecString, DecSignedField, DecUnsignedField, DecZigzagField, DecFixed32, DecFixed64;
    hide DecBytes, DecChars, DecFixedBytes, DecMessage, SetDefaults;
    if f.ltype.LSubmessage? {
      DecStringLocal(bs, y);
    } else if f.ltype.LBool? {
      DecVarint32Local(bs, y);
    } else if f.ltype.LFixed32? || f.ltype.LFixed64? {
      DecFixedLocal(bs, y);
    } else if f.Packable() {
      DecIntegerLocal(f.dataSize, bs, y);
    } else {
      DecBytesLocal(f, bs, y, prior);
    }
  }

  lemma DecArrayLocal(f: Field, wt: nat, bs: seq<byte>, y: seq<byte>, n: nat, items: seq<Value>)
    ensures Extends(DecArray(f, wt, bs, n, items), DecArray(f, wt, bs + y, n, items), y)
  {
    hide DecString, DecValue, DecItems;
    DecStringLocal(bs, y);
    DecValueLocal(f, bs, y, ItemAt(items, n));
  }

  lemma DecCellLocal(f: Field, wt: nat, bs: seq<byte>, y: seq<byte>, c: Cell, fixedSize: nat)
    ensures Extends(DecCell(f, wt, bs, c, fixedSize), DecCell(f, wt, bs + y, c, fixedSize), y)
  {
    hide DecValue, DecArray, OneofTarget;
    DecValueLocal(f, bs, y, CellValue(c));
    DecValueLocal(f, bs, y, OneofTarget(f, c));
    DecArrayLocal(f, wt, bs, y, if c.Arr? then c.count else 0, CellItems(c));
    DecArrayLocal(f, wt, bs, y, fixedSize, CellItems(c));
  }

  lemma DecFieldLocal(fields: seq<Field>, wt: nat, tag: nat, bs: seq<byte>, y: seq<byte>, st: State)
    ensures Extends(DecField(fields, wt, tag, bs, st), DecField(fields, wt, tag, bs + y, st), y)
  {
    hide DecCell, Lookup, SkipField, Turn, Slot, Mark;
    SkipFieldLocal(wt, bs, y);
    if Lookup(fields, tag).Some? && Turn(fields, Lookup(fields, tag).value, st).Some? {
      var i := Lookup(fields, tag).value;
      var st1 := Turn(fields, i, st).value;
      DecCellLocal(FieldAt(fields, i), wt, bs, y, CellAt(st1.cells, Slot(fields, i)), st1.fixedSize);
    }
  }

  // ---- Inputs that end at a field boundary ----

  /** The state after decoding bs, when bs consists of whole fields and has no zero tag */
  function Runs(fields: seq<Field>, bs: seq<byte>, st: State): Option<State>
    decreases |bs|
  {
    if bs == [] then Some(st)
    else
      match DecTag(bs)
      case Tag(wt, tag, rest) =>
        (match DecField(fields, wt, tag, rest, st)
         case Bad => None
         case Ok(st', rest') => Runs(fields, rest', st'))
      case _ => None
  }

  /** Decoding goes on after whole fields as if it started there. */
  lemma {:induction false} RunsThen(fields: seq<Field>, x: seq<byte>, y: seq<byte>, st: State)
    requires Runs(fields, x, st).Some?
    ensures DecFields(fields, x + y, st) == DecFields(fields, y, Runs(fields, x, st).value)
    ensures Runs(fields, x + y, st) == Runs(fields, y, Runs(fields, x, st).value)
    decreases |x|
  {
    hide DecTag, DecField;
    if x == [] {
      assert x + y == y;
    } else {
      DecTagLocal(x, y);
      var Tag(wt, tag, rest) := DecTag(x);
      DecFieldLocal(fields, wt, tag, rest, y, st);
      var Ok(st', rest') := DecField(fields, wt, tag, rest, st);
      RunsThen(fields, rest', y, st');
    }
  }

  lemma RunsDecodes(fields: seq<Field>, x: seq<byte>, st: State)
    requires Runs(fields, x, st).Some?
    ensures DecFields(fields, x, st) == Ok(Runs(fields, x, st).value, [])
  {
    hide Runs;
    RunsThen(fields, x, [], st);
    assert x + [] == x;
  }
}
