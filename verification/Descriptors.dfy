/**
  Field descriptors (pb_field_t of pb.h) and the structs they describe.
  A struct is a sequence of cells, one for each place in memory: the members of one union share a
  cell. The functions that read a cell are total, as reads of memory are.
 */
module Descriptors {
  import opened Wire

  /** pb_size_t is 8, 16 or 32 bits wide, by configuration. */
  type SizeMax = n: int | n == 0xFF || n == 0xFFFF || n == 0xFFFF_FFFF witness 0xFF
  const PB_SIZE_MAX: SizeMax

  /** offsetof(pb_bytes_array_t, bytes): the size of a pb_size_t */
  const BYTES_HEADER: nat := if PB_SIZE_MAX == 0xFF then 1 else if PB_SIZE_MAX == 0xFFFF then 2 else 4

  const PB_MAX_REQUIRED_FIELDS: nat := 64

  datatype LType =
    | LBool | LVarint | LUvarint | LSvarint | LFixed32 | LFixed64
    | LBytes | LString | LSubmessage | LFixedBytes

  datatype HType = Required | Optional | Repeated | Oneof

  datatype Ptr = Null | Sub(fields: seq<Field>) | Default(value: Value)

  datatype Field = Field(
    tag: nat, ltype: LType, htype: HType,
    dataOffset: nat, sizeOffset: int, dataSize: nat, arraySize: nat, ptr: Ptr)
  {
    predicate Packable() {
      !ltype.LBytes? && !ltype.LString? && !ltype.LSubmessage? && !ltype.LFixedBytes?
    }

    /** A repeated field without a counter in the struct */
    predicate FixedCount() {
      htype.Repeated? && sizeOffset == 0
    }

    function SubFields(): (r: seq<Field>) {
      if ptr.Sub? then ptr.fields else []
    }
  }

  /** PB_LAST_FIELD, as the code sees it: a required bool with tag 0 */
  const TERMINATOR: Field := Field(0, LBool, Required, 0, 0, 0, 0, Null)

  datatype Value =
    | VBool(b: bool)
    | VNum(n: int)
    | VBytes(data: seq<byte>)      // pb_bytes_array_t
    | VString(buf: seq<byte>)      // a char array, with whatever follows the terminator
    | VFixed(data: seq<byte>)      // pb_byte_t[data_size]
    | VMsg(cells: seq<Cell>)

  datatype Cell =
    | One(v: Value)                             // required, or optional without has_ flag
    | Opt(has: bool, v: Value)                  // optional with has_ flag
    | Arr(count: nat, items: seq<Value>)        // repeated: the counter and the whole array
    | Fix(items: seq<Value>)                    // repeated without counter
    | Union(which: nat, v: Value)               // oneof: the which_ field and the union

  // ---- Reading and writing cells ----

  const BLANK: Value := VNum(0)

  function CellAt(cells: seq<Cell>, slot: nat): Cell {
    if slot < |cells| then cells[slot] else One(BLANK)
  }

  function WithCell(cells: seq<Cell>, slot: nat, c: Cell): (r: seq<Cell>)
    ensures |r| == |cells|
    ensures forall k | 0 <= k < |cells| :: r[k] == if k == slot then c else cells[k]
  {
    if slot < |cells| then cells[slot := c] else cells
  }

  function CellValue(c: Cell): Value {
    if c.One? || c.Opt? || c.Union? then c.v else BLANK
  }

  function CellItems(c: Cell): seq<Value> {
    if c.Arr? || c.Fix? then c.items else []
  }

  function ItemAt(items: seq<Value>, k: nat): Value {
    if k < |items| then items[k] else BLANK
  }

  function WithItem(items: seq<Value>, k: nat, v: Value): (r: seq<Value>)
    ensures |r| == |items|
  {
    if k < |items| then items[k := v] else items
  }

  function CellsOf(v: Value): seq<Cell> {
    if v.VMsg? then v.cells else []
  }

  function NumOf(v: Value): int {
    if v.VNum? then v.n else 0
  }

  function NatOf(v: Value): nat {
    if v.VNum? && v.n >= 0 then v.n else 0
  }

  function BytesOf(v: Value): seq<byte> {
    if v.VBytes? || v.VFixed? then v.data else if v.VString? then v.buf else []
  }

  function BoolOf(v: Value): bool {
    v.VBool? && v.b
  }

  // ---- Field tables ----

  function FieldAt(fields: seq<Field>, i: nat): Field {
    if i < |fields| then fields[i] else TERMINATOR
  }

  /** Whether field b is a further member of the union that field a belongs to */
  predicate SameUnion(a: Field, b: Field) {
    a.htype.Oneof? && b.htype.Oneof? && b.dataOffset == PB_SIZE_MAX
  }

  /** The cell of field i */
  function Slot(fields: seq<Field>, i: nat): (r: nat)
    ensures r <= i
  {
    if i == 0 || i >= |fields| then 0
    else if SameUnion(fields[i - 1], fields[i]) then Slot(fields, i - 1)
    else Slot(fields, i - 1) + 1
  }

  function SlotCount(fields: seq<Field>): nat {
    if fields == [] then 0 else Slot(fields, |fields| - 1) + 1
  }

  lemma {:induction false} SlotMonotone(fields: seq<Field>, i: nat, j: nat)
    requires i < j < |fields|
    ensures Slot(fields, i) <= Slot(fields, j)
    ensures Slot(fields, i) == Slot(fields, j) ==> fields[i].htype.Oneof? && fields[j].htype.Oneof?
    decreases j
  {
    if i < j - 1 {
      SlotMonotone(fields, i, j - 1);
    }
  }

  lemma SlotInRange(fields: seq<Field>, i: nat)
    requires i < |fields|
    ensures Slot(fields, i) < SlotCount(fields)
  {
    if i < |fields| - 1 {
      SlotMonotone(fields, i, |fields| - 1);
    }
  }

  /** Two fields share a cell only when both are oneof members. */
  lemma SlotShared(fields: seq<Field>, i: nat, j: nat)
    requires i < |fields| && j < |fields| && i != j && Slot(fields, i) == Slot(fields, j)
    ensures fields[i].htype.Oneof? && fields[j].htype.Oneof?
  {
    SlotMonotone(fields, if i < j then i else j, if i < j then j else i);
  }

  /** The number of required fields before position i */
  function RequiredBefore(fields: seq<Field>, i: nat): (r: nat)
    ensures r <= i
  {
    if i == 0 || i > |fields| then 0
    else RequiredBefore(fields, i - 1) + (if fields[i - 1].htype.Required? then 1 else 0)
  }

  lemma {:induction false} RequiredBeforeStrict(fields: seq<Field>, i: nat, j: nat)
    requires i < j <= |fields|
    ensures RequiredBefore(fields, i) <= RequiredBefore(fields, j)
    ensures fields[i].htype.Required? ==> RequiredBefore(fields, i) < RequiredBefore(fields, j)
    decreases j
  {
    if i < j - 1 {
      RequiredBeforeStrict(fields, i, j - 1);
    }
  }

  function LookupFrom(fields: seq<Field>, tag: nat, i: nat): (r: Option<nat>)
    ensures r.Some? ==> i <= r.value < |fields| && fields[r.value].tag == tag
    ensures r.None? ==> forall k | i <= k < |fields| :: fields[k].tag != tag
    decreases |fields| - i
  {
    if i >= |fields| then None
    else if fields[i].tag == tag then Some(i)
    else LookupFrom(fields, tag, i + 1)
  }

  /** The field with a tag. In an empty table, tag 0 matches the terminator. */
  function Lookup(fields: seq<Field>, tag: nat): Option<nat> {
    if fields == [] && tag == 0 then Some(0) else LookupFrom(fields, tag, 0)
  }

  ghost predicate UniqueTags(fields: seq<Field>) {
    && (forall i | 0 <= i < |fields| :: 1 <= fields[i].tag < 0x2000_0000)
    && (forall i, j | 0 <= i < j < |fields| :: fields[i].tag != fields[j].tag)
  }

  lemma LookupUnique(fields: seq<Field>, i: nat)
    requires UniqueTags(fields) && i < |fields|
    ensures Lookup(fields, fields[i].tag) == Some(i)
  {
  }

  // ---- Well-formed tables and the structs that match them ----

  /** What the generator guarantees of a descriptor table. */
  ghost predicate WellFormed(fields: seq<Field>)
    decreases fields
  {
    UniqueTags(fields) && forall i | 0 <= i < |fields| :: WellFormedField(fields[i])
  }

  ghost predicate WellFormedField(f: Field)
    decreases f
  {
    && 1 <= f.tag
    && (f.htype.Required? ==> f.sizeOffset == 0)
    && (f.htype.Oneof? ==> f.sizeOffset != 0)
    && f.dataSize <= PB_SIZE_MAX && f.arraySize <= PB_SIZE_MAX
    && (f.ltype.LVarint? || f.ltype.LUvarint? || f.ltype.LSvarint? ==> IntSize(f.dataSize))
    && (f.ltype.LBytes? ==> BYTES_HEADER <= f.dataSize)
    && (f.ltype.LString? ==> 1 <= f.dataSize)
    && (f.ltype.LSubmessage? <==> f.ptr.Sub?)
    && (f.ptr.Sub? ==> WellFormed(f.ptr.fields))
    && (f.ptr.Default? ==> ValueShape(f, f.ptr.value))
  }

  ghost predicate Shape(fields: seq<Field>, cells: seq<Cell>)
    decreases fields
  {
    && |cells| == SlotCount(fields)
    && forall i | 0 <= i < |fields| :: CellShape(fields[i], CellAt(cells, Slot(fields, i)))
  }

  ghost predicate CellShape(f: Field, c: Cell)
    decreases f, 1
  {
    match f.htype
    case Required => c.One? && ValueShape(f, c.v)
    case Optional => (if f.sizeOffset != 0 then c.Opt? else c.One?) && ValueShape(f, c.v)
    case Repeated =>
      && (if f.sizeOffset != 0 then c.Arr? else c.Fix?)
      && |c.items| == f.arraySize
      && forall k | 0 <= k < |c.items| :: ValueShape(f, c.items[k])
    case Oneof => c.Union? && (c.which == f.tag ==> ValueShape(f, c.v))
  }

  /** The value is one that the storage of field f can hold. */
  ghost predicate ValueShape(f: Field, v: Value)
    decreases f, 0
  {
    match f.ltype
    case LBool => v.VBool?
    case LVarint => v.VNum? && FitsSigned(v.n, f.dataSize)
    case LSvarint => v.VNum? && FitsSigned(v.n, f.dataSize)
    case LUvarint => v.VNum? && FitsUnsigned(v.n, f.dataSize)
    case LFixed32 => v.VNum? && FitsUnsigned(v.n, 4)
    case LFixed64 => v.VNum? && FitsUnsigned(v.n, 8)
    case LBytes => v.VBytes?
    case LString => v.VString? && |v.buf| == f.dataSize
    case LFixedBytes => v.VFixed? && |v.data| == f.dataSize
    case LSubmessage => v.VMsg? && f.ptr.Sub? && Shape(f.ptr.fields, v.cells)
  }
}
