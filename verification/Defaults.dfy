/**
  pb_message_set_to_defaults: the state it brings a struct into, whatever the struct held.
 */
module Defaults {
  import opened Descriptors
  import opened EncoderSpec
  import opened DecoderSpec

  /** Singular fields, those without a has_ flag, have no default value other than zero. */
  ghost predicate ZeroDefaults(fields: seq<Field>)
    decreases fields
  {
    forall i | 0 <= i < |fields| :: ZeroDefault(fields[i])
  }

  ghost predicate ZeroDefault(f: Field)
    decreases f
  {
    && (f.ptr.Sub? ==> ZeroDefaults(f.ptr.fields))
    && (f.htype.Optional? && f.sizeOffset == 0 && f.ptr.Default? && !f.ltype.LFixedBytes? ==>
          IsDefault(f, One(f.ptr.value)))
  }

  /** The struct has just been set to its defaults: nothing is present in it. */
  ghost predicate Fresh(fields: seq<Field>, cells: seq<Cell>)
    decreases fields
  {
    && |cells| == SlotCount(fields)
    && forall i | 0 <= i < |fields| :: FreshCell(fields[i], CellAt(cells, Slot(fields, i)))
  }

  ghost predicate FreshCell(f: Field, c: Cell)
    decreases f, 1
  {
    match f.htype
    case Required => c.One? && FreshStore(f, c.v)
    case Optional =>
      if f.sizeOffset != 0 then c.Opt? && !c.has && FreshStore(f, c.v)
      else c.One? && FreshStore(f, c.v) && FreshSingular(f, c)
    case Repeated => CellShape(f, c) && (c.Arr? ==> c.count == 0)
    case Oneof => c.Union? && c.which != f.tag
  }

  ghost predicate FreshStore(f: Field, v: Value)
    decreases f, 0
  {
    f.ltype.LSubmessage? ==> v.VMsg? && f.ptr.Sub? && Fresh(f.ptr.fields, v.cells)
  }

  ghost predicate FreshSingular(f: Field, c: Cell) {
    !f.ltype.LSubmessage? ==>
      ValueShape(f, CellValue(c)) && (f.ltype.LFixedBytes? || IsDefault(f, c))
  }

  // ---- What SetDefaults does to each cell ----

  lemma {:induction false} SetDefaultsBelow(fields: seq<Field>, cells: seq<Cell>, i: nat, s: nat)
    requires i < |fields| ==> s < Slot(fields, i)
    ensures CellAt(SetDefaultsFrom(fields, cells, i), s) == CellAt(cells, s)
    decreases |fields| - i
  {
    if i < |fields| {
      if i + 1 < |fields| {
        SlotMonotone(fields, i, i + 1);
      }
      var t := Slot(fields, i);
      SetDefaultsBelow(fields, WithCell(cells, t, SetDefault(fields[i], CellAt(cells, t))), i + 1, s);
    }
  }

  lemma {:induction false} SetDefaultsAt(fields: seq<Field>, cells: seq<Cell>, i: nat, j: nat)
    requires i <= j < |fields| && |cells| == SlotCount(fields)
    ensures CellAt(SetDefaultsFrom(fields, cells, i), Slot(fields, j)) ==
            SetDefault(fields[j], CellAt(cells, Slot(fields, j)))
    decreases |fields| - i
  {
    var s := Slot(fields, i);
    SlotInRange(fields, i);
    var cells' := WithCell(cells, s, SetDefault(fields[i], CellAt(cells, s)));
    if j > i {
      SetDefaultsAt(fields, cells', i + 1, j);
      if Slot(fields, j) == s {
        SlotShared(fields, i, j);
      }
    } else if i + 1 < |fields| && Slot(fields, i + 1) == s {
      SlotShared(fields, i, i + 1);
      SetDefaultsAt(fields, cells', i + 1, i + 1);
    } else {
      if i + 1 < |fields| {
        SlotMonotone(fields, i, i + 1);
      }
      SetDefaultsBelow(fields, cells', i + 1, s);
    }
  }

  lemma {:induction false} ZeroCellsAt(fields: seq<Field>, n: nat, j: nat)
    requires j < n <= |fields|
    ensures |ZeroCells(fields, n)| == Slot(fields, n - 1) + 1
    ensures Slot(fields, j) < |ZeroCells(fields, n)|
    ensures var c := ZeroCells(fields, n)[Slot(fields, j)];
      if fields[j].htype.Oneof? then c.Union? && c.which == 0 else c == ZeroCell(fields[j])
    decreases n
  {
    if n > 1 {
      ZeroCellsAt(fields, n - 1, if j < n - 1 then j else n - 2);
      if j < n - 1 {
        SlotMonotone(fields, j, n - 1);
      }
    }
  }

  lemma {:induction false} ZeroShape(fields: seq<Field>)
    requires WellFormed(fields)
    ensures Shape(fields, ZeroCells(fields, |fields|))
    decreases fields
  {
    if |fields| > 0 {
      ZeroCellsAt(fields, |fields|, 0);
    }
    forall i | 0 <= i < |fields|
      ensures CellShape(fields[i], CellAt(ZeroCells(fields, |fields|), Slot(fields, i)))
    {
      ZeroCellsAt(fields, |fields|, i);
      ZeroValueShape(fields[i]);
    }
  }

  lemma {:induction false} ZeroValueShape(f: Field)
    requires WellFormedField(f)
    ensures ValueShape(f, ZeroValue(f))
    decreases f
  {
    if f.ltype.LSubmessage? {
      ZeroShape(f.ptr.fields);
    }
  }

  /** Setting defaults makes any struct fresh. */
  lemma {:induction false} SetDefaultsFresh(fields: seq<Field>, cells: seq<Cell>)
    requires WellFormed(fields) && ZeroDefaults(fields) && Shape(fields, cells)
    ensures Fresh(fields, SetDefaults(fields, cells))
    decreases fields
  {
    forall i | 0 <= i < |fields|
      ensures FreshCell(fields[i], CellAt(SetDefaults(fields, cells), Slot(fields, i)))
    {
      SetDefaultsAt(fields, cells, 0, i);
      SetDefaultFresh(fields[i], CellAt(cells, Slot(fields, i)));
    }
  }

  lemma ZeroStartKeeps(f: Field, items: seq<Value>)
    ensures StartZeroed(f, items, ZERO_START(f, items))
  {
    hide ValueShape, ZeroValue, StartZeroed;
    assert ZeroesStart(ZERO_START);
  }

  lemma ZeroStartShapes(f: Field, items: seq<Value>)
    requires forall k | 0 <= k < |items| :: ValueShape(f, items[k])
    ensures |ZERO_START(f, items)| == |items|
    ensures forall k | 0 <= k < |items| :: ValueShape(f, ZERO_START(f, items)[k])
  {
    hide ValueShape, ZeroValue;
    ZeroStartKeeps(f, items);
  }

  lemma {:induction false} SetDefaultFresh(f: Field, c: Cell)
    requires WellFormedField(f) && ZeroDefault(f) && CellShape(f, c)
    ensures FreshCell(f, SetDefault(f, c))
    decreases f
  {
    if f.ltype.LSubmessage? && (f.htype.Required? || f.htype.Optional?) {
      SetDefaultsFresh(f.ptr.fields, c.v.cells);
    } else if f.htype.Repeated? {
      ZeroStartShapes(f, c.items);
    }
  }

  lemma FreshMessageFresh(fields: seq<Field>)
    requires WellFormed(fields) && ZeroDefaults(fields)
    ensures Fresh(fields, FreshMessage(fields))
  {
    ZeroShape(fields);
    SetDefaultsFresh(fields, ZeroCells(fields, |fields|));
  }
}
