/**
  The values a struct holds for fields that were not in the input: the defaults its descriptors
  declare, and zeros elsewhere, written out.
 */
module Declared {
  import opened Wire
  import opened Descriptors
  import opened GoodStructs
  import opened DecoderSpec
  import opened Defaults
  import opened RequiredFields
  import opened Places

  /** All bytes of the array are zero, and there are n of them. */
  predicate ZeroBytes(data: seq<byte>, n: nat) {
    |data| == n && forall k | 0 <= k < n :: data[k] == 0
  }

  // ---- Declared defaults ----

  /** Nothing is present in the struct, and every field holds its default, at any depth. */
  ghost predicate HoldsDefaults(fields: seq<Field>, cells: seq<Cell>)
    decreases fields
  {
    forall i | 0 <= i < |fields| :: HoldsDefault(fields[i], CellAt(cells, Slot(fields, i)))
  }

  /** No has_ flag, no counter and no which_ member is set; a union and arrays are left as they are. */
  ghost predicate HoldsDefault(f: Field, c: Cell)
    decreases f, 1
  {
    match f.htype
    case Required => c.One? && DefaultValue(f, c.v)
    case Optional => (if f.sizeOffset != 0 then c.Opt? && !c.has else c.One?) && DefaultValue(f, c.v)
    case Repeated => if f.sizeOffset != 0 then c.Arr? && c.count == 0 else c.Fix?
    case Oneof => c.Union? && c.which == 0
  }

  ghost predicate DefaultValue(f: Field, v: Value)
    decreases f, 0
  {
    if f.ltype == LSubmessage then v.VMsg? && f.ptr.Sub? && HoldsDefaults(f.ptr.fields, v.cells)
    else if f.ptr.Default? then v == f.ptr.value
    else ZeroScalar(f, v)
  }

  predicate ZeroScalar(f: Field, v: Value) {
    match f.ltype
    case LBool => v == VBool(false)
    case LVarint | LUvarint | LSvarint | LFixed32 | LFixed64 => v == VNum(0)
    case LBytes => v == VBytes([])
    case LString => v.VString? && ZeroBytes(v.buf, f.dataSize)
    case LFixedBytes => v.VFixed? && ZeroBytes(v.data, f.dataSize)
    case LSubmessage => true
  }

  /** pb_message_set_to_defaults leaves the declared defaults, whatever the struct held. */
  lemma {:induction false} SetDefaultsDeclared(fields: seq<Field>, cells: seq<Cell>)
    requires WellFormed(fields) && Shape(fields, cells)
    ensures HoldsDefaults(fields, SetDefaults(fields, cells))
    decreases fields, 1
  {
    hide SetDefault, HoldsDefault, Slot, SlotCount, CellShape, WellFormedField;
    forall i | 0 <= i < |fields|
      ensures HoldsDefault(fields[i], CellAt(SetDefaults(fields, cells), Slot(fields, i)))
    {
      SetDefaultsAt(fields, cells, 0, i);
      SetDefaultDeclared(fields[i], CellAt(cells, Slot(fields, i)));
    }
  }

  lemma {:induction false} SetDefaultDeclared(f: Field, c: Cell)
    requires WellFormedField(f) && CellShape(f, c)
    ensures HoldsDefault(f, SetDefault(f, c))
    decreases f
  {
    if f.ltype.LSubmessage? && (f.htype.Required? || f.htype.Optional?) {
      hide Shape, HoldsDefaults;
      SetDefaultsDeclared(f.ptr.fields, c.v.cells);
    }
  }

  /**
    After a successful pb_decode, a field without a record in the input, or a union without a record
    of any member, holds what its descriptor declares.
   */
  lemma UnmetDeclared(fields: seq<Field>, bs: seq<byte>, dest: seq<Cell>, i: nat)
    requires WellFormed(fields) && Shape(fields, dest) && i < |fields| && Decode(fields, bs, dest).Ok?
    requires forall m | m in Met(fields, bs, Start(SetDefaults(fields, dest))) :: !OneUnion(fields, i, m)
    ensures HoldsDefault(fields[i], CellAt(Decode(fields, bs, dest).val, Slot(fields, i)))
  {
    hide DecFields, Met, WellFormed, Shape, HoldsDefault, Slot, OneUnion, SetDefaults;
    SetDefaultsDeclared(fields, dest);
    UnmetKept(fields, bs, Start(SetDefaults(fields, dest)), i);
  }

  // ---- A union that turns to a submessage ----

  /** Memory that was cleared, at any depth */
  ghost predicate ZeroStruct(fields: seq<Field>, cells: seq<Cell>)
    decreases fields
  {
    forall i | 0 <= i < |fields| :: ZeroField(fields[i], CellAt(cells, Slot(fields, i)))
  }

  ghost predicate ZeroField(f: Field, c: Cell)
    decreases f, 1
  {
    match f.htype
    case Required => c.One? && ZeroStorage(f, c.v)
    case Optional => (if f.sizeOffset != 0 then c.Opt? && !c.has else c.One?) && ZeroStorage(f, c.v)
    case Repeated => ZeroArray(f, c)
    case Oneof => c.Union? && c.which == 0
  }

  /** An array without elements, all its storage zero */
  ghost predicate ZeroArray(f: Field, c: Cell)
    decreases f, 0, 1
  {
    && (if f.sizeOffset != 0 then c.Arr? && c.count == 0 else c.Fix?)
    && |c.items| == f.arraySize && forall k | 0 <= k < f.arraySize :: ZeroStorage(f, c.items[k])
  }

  ghost predicate ZeroStorage(f: Field, v: Value)
    decreases f, 0, 0
  {
    ZeroScalar(f, v) && (f.ltype == LSubmessage ==> v.VMsg? && f.ptr.Sub? && ZeroStruct(f.ptr.fields, v.cells))
  }

  lemma {:induction false} ClearedIsZero(fields: seq<Field>)
    requires WellFormed(fields)
    ensures ZeroStruct(fields, ZeroCells(fields, |fields|))
    decreases fields
  {
    hide ZeroCell, ZeroCells, ZeroField, Slot, WellFormedField;
    forall i | 0 <= i < |fields|
      ensures ZeroField(fields[i], CellAt(ZeroCells(fields, |fields|), Slot(fields, i)))
    {
      ZeroCellsAt(fields, |fields|, i);
      ClearedField(fields[i], CellAt(ZeroCells(fields, |fields|), Slot(fields, i)));
    }
  }

  lemma {:induction false} ClearedField(f: Field, c: Cell)
    requires WellFormedField(f) && if f.htype.Oneof? then c.Union? && c.which == 0 else c == ZeroCell(f)
    ensures ZeroField(f, c)
    decreases f, 1
  {
    hide ZeroValue, ZeroStorage, WellFormedField;
    ClearedValue(f);
  }

  lemma {:induction false} ClearedValue(f: Field)
    requires WellFormedField(f)
    ensures ZeroStorage(f, ZeroValue(f))
    decreases f, 0
  {
    if f.ltype.LSubmessage? {
      ClearedIsZero(f.ptr.fields);
    }
  }

  /**
    The submessage that a union turns to starts with the declared defaults, and all its arrays are
    zero, whatever the union held.
   */
  lemma TurnedUnion(f: Field, c: Cell)
    requires WellFormedField(f) && f.htype == Oneof && f.ltype == LSubmessage
    ensures var v := OneofTarget(f, c);
      && v.VMsg? && HoldsDefaults(f.ptr.fields, v.cells)
      && forall i | 0 <= i < |f.ptr.fields| && f.ptr.fields[i].htype == Repeated ::
           ZeroArray(f.ptr.fields[i], CellAt(v.cells, Slot(f.ptr.fields, i)))
  {
    hide WellFormed, HoldsDefaults, ZeroArray, FreshMessage;
    FreshDeclared(f.ptr.fields);
  }

  lemma {:induction false} FreshDeclared(fields: seq<Field>)
    requires WellFormed(fields)
    ensures var cells := FreshMessage(fields);
      && HoldsDefaults(fields, cells)
      && forall i | 0 <= i < |fields| && fields[i].htype == Repeated ::
           ZeroArray(fields[i], CellAt(cells, Slot(fields, i)))
  {
    hide WellFormedField, HoldsDefaults, ZeroArray, SetDefault, SetDefaultsFrom, ZeroCells, ZeroCell, CellShape;
    hide Slot, SlotCount;
    var cleared := ZeroCells(fields, |fields|);
    ZeroShape(fields);
    SetDefaultsDeclared(fields, cleared);
    forall i | 0 <= i < |fields| && fields[i].htype == Repeated
      ensures ZeroArray(fields[i], CellAt(FreshMessage(fields), Slot(fields, i)))
    {
      SetDefaultsAt(fields, cleared, 0, i);
      ZeroCellsAt(fields, |fields|, i);
      EmptiedArray(fields[i]);
    }
  }

  lemma EmptiedArray(f: Field)
    requires f.htype.Repeated? && WellFormedField(f)
    ensures ZeroArray(f, SetDefault(f, ZeroCell(f)))
  {
    hide ZeroStorage, ValueShape, GoodValue, ZeroValue;
    ClearedValue(f);
    if f.sizeOffset == 0 {
      ZeroStartKeeps(f, CellItems(ZeroCell(f)));
    }
  }
}
