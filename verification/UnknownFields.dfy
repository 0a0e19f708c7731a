/**
  Fields whose tags are not in the table leave no trace: pb_skip_field consumes exactly what the
  encoder writes for any kind of field, so a message of a newer schema decodes under an older one.
 */
module UnknownFields {
  import opened Words
  import opened Wire
  import opened WireProperties
  import opened Descriptors
  import opened EncoderSpec
  import opened DecoderSpec
  import opened Locality

  /** Skipping by wire type consumes exactly the payload of any encoded value. */
  lemma SkipEncodedValue(f: Field, v: Value, y: seq<byte>)
    requires EncValue(f, v).Some? && |EncValue(f, v).value| < U32
    ensures SkipField(WireType(f.ltype), EncValue(f, v).value + y) == Ok((), y)
  {
    hide EncVarint, DecString, SkipVarint, Zigzag, EncFixed32, StrLen;
    var b := EncValue(f, v).value;
    if WireType(f.ltype) == WT_VARINT {
      assert exists n: nat :: b == EncVarint(n);
      var n: nat :| b == EncVarint(n);
      SkipEncodedVarint(n, y);
    } else if WireType(f.ltype) == WT_STRING {
      assert exists data :: b == EncString(data);
      var data :| b == EncString(data);
      StringRoundTrip(data, y);
    } else {
      assert (b + y)[|b|..] == y;
    }
  }

  predicate UnknownTag(fields: seq<Field>, tag: nat) {
    1 <= tag < 0x2000_0000 && Lookup(fields, tag).None?
  }

  lemma UnknownRecord(fields: seq<Field>, wt: nat, tag: nat, payload: seq<byte>, y: seq<byte>, st: State)
    requires UnknownTag(fields, tag) && wt < 8 && SkipField(wt, payload + y) == Ok((), y)
    ensures Runs(fields, EncTag(wt, tag) + payload + y, st) == Runs(fields, y, st)
  {
    hide EncTag, DecTag, SkipField, Lookup;
    TagRoundTrip(wt, tag, payload + y);
    assert EncTag(wt, tag) + payload + y == EncTag(wt, tag) + (payload + y);
  }

  lemma UnknownSingle(fields: seq<Field>, f: Field, v: Value, y: seq<byte>, st: State)
    requires UnknownTag(fields, f.tag) && EncSingle(f, v).Some? && |EncSingle(f, v).value| < U32
    ensures Runs(fields, EncSingle(f, v).value + y, st) == Runs(fields, y, st)
  {
    hide EncValue, EncTag, SkipField, Runs, UnknownTag;
    SkipEncodedValue(f, v, y);
    UnknownRecord(fields, WireType(f.ltype), f.tag, EncValue(f, v).value, y, st);
  }

  lemma {:induction false} UnknownTagged(fields: seq<Field>, f: Field, items: seq<Value>, y: seq<byte>, st: State)
    requires UnknownTag(fields, f.tag) && EncTagged(f, items).Some? && |EncTagged(f, items).value| < U32
    ensures Runs(fields, EncTagged(f, items).value + y, st) == Runs(fields, y, st)
    decreases |items|
  {
    hide EncValue, FieldTag, Runs, UnknownTag;
    if items == [] {
      assert [] + y == y;
    } else {
      var more := EncTagged(f, items[1..]).value;
      assert EncTagged(f, items).value + y == EncSingle(f, items[0]).value + (more + y);
      UnknownSingle(fields, f, items[0], more + y, st);
      UnknownTagged(fields, f, items[1..], y, st);
    }
  }

  lemma UnknownPacked(fields: seq<Field>, f: Field, items: seq<Value>, y: seq<byte>, st: State)
    requires UnknownTag(fields, f.tag) && EncPacked(f, items).Some? && |EncPacked(f, items).value| < U32
    ensures Runs(fields, EncPacked(f, items).value + y, st) == Runs(fields, y, st)
  {
    hide EncItems, EncTag, EncVarint, DecString, Runs, UnknownTag;
    var data := EncItems(f, items).value;
    StringRoundTrip(data, y);
    UnknownRecord(fields, WT_STRING, f.tag, EncString(data), y, st);
  }

  lemma UnknownField(fields: seq<Field>, f: Field, c: Cell, y: seq<byte>, st: State)
    requires UnknownTag(fields, f.tag) && EncField(f, c).Some? && |EncField(f, c).value| < U32
    ensures Runs(fields, EncField(f, c).value + y, st) == Runs(fields, y, st)
  {
    hide EncSingle, EncPacked, EncTagged, Runs, UnknownTag, IsSent;
    assert [] + y == y;
    if f.htype.Repeated? {
      var items := CellItems(c);
      var count := if f.sizeOffset == 0 then f.arraySize else if c.Arr? then c.count else 0;
      if 0 < count <= |items| {
        if f.Packable() {
          UnknownPacked(fields, f, items[..count], y, st);
        } else {
          UnknownTagged(fields, f, items[..count], y, st);
        }
      }
    } else if EncField(f, c) != Some([]) {
      UnknownSingle(fields, f, CellValue(c), y, st);
    }
  }

  lemma {:induction false} UnknownFieldsFrom(
    fields: seq<Field>, other: seq<Field>, src: seq<Cell>, i: nat, y: seq<byte>, st: State)
    requires forall j | 0 <= j < |other| :: UnknownTag(fields, other[j].tag)
    requires EncFields(other, src, i).Some? && |EncFields(other, src, i).value| < U32
    ensures Runs(fields, EncFields(other, src, i).value + y, st) == Runs(fields, y, st)
    decreases |other| - i
  {
    hide EncField, Runs, UnknownTag, Slot;
    if i >= |other| {
      assert [] + y == y;
    } else {
      var b := EncField(other[i], CellAt(src, Slot(other, i))).value;
      var more := EncFields(other, src, i + 1).value;
      assert EncFields(other, src, i).value + y == b + (more + y);
      UnknownField(fields, other[i], CellAt(src, Slot(other, i)), more + y, st);
      UnknownFieldsFrom(fields, other, src, i + 1, y, st);
    }
  }

  /**
    Unknown fields are transparent: the encoding of any message of another table, no tag of which
    is known, can be inserted at any field boundary without changing verdict or struct.
   */
  lemma UnknownFieldsTransparent(
    fields: seq<Field>, other: seq<Field>, src: seq<Cell>, x: seq<byte>, y: seq<byte>, cells: seq<Cell>)
    requires forall j | 0 <= j < |other| :: UnknownTag(fields, other[j].tag)
    requires EncMessage(other, src).Some? && |EncMessage(other, src).value| < U32
    requires Runs(fields, x, Start(cells)).Some?
    ensures DecMessage(fields, x + EncMessage(other, src).value + y, cells) == DecMessage(fields, x + y, cells)
  {
    hide Runs, UnknownTag, EncFields, DecFields, FixedComplete, RequiredPresent;
    var u := EncMessage(other, src).value;
    var st := Runs(fields, x, Start(cells)).value;
    UnknownFieldsFrom(fields, other, src, 0, [], st);
    assert u + [] == u && Runs(fields, [], st) == Some(st) by {
      RunsEmpty(fields, st);
    }
    RunsThen(fields, x, u, Start(cells));
    RunsThen(fields, x + u, y, Start(cells));
    RunsThen(fields, x, y, Start(cells));
  }

  lemma RunsEmpty(fields: seq<Field>, st: State)
    ensures Runs(fields, [], st) == Some(st)
  {
  }
}
