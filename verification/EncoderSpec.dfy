/**
  What pb_encode.c emits, as functions from a struct to bytes. None stands for a failure that
  does not depend on the stream (a corrupt size or an invalid descriptor).
 */
module EncoderSpec {
  import opened Words
  import opened Wire
  import opened Descriptors

  function Cat(a: Option<seq<byte>>, b: Option<seq<byte>>): Option<seq<byte>> {
    if a.None? || b.None? then None else Some(a.value + b.value)
  }

  /** A length prefix and the payload it announces */
  function Prefixed(payload: Option<seq<byte>>): Option<seq<byte>> {
    if payload.None? then None else Some(EncString(payload.value))
  }

  /** The wire type pb_encode_tag_for_field selects */
  function WireType(ltype: LType): nat {
    match ltype
    case LFixed32 => WT_32BIT
    case LFixed64 => WT_64BIT
    case LBytes | LString | LSubmessage | LFixedBytes => WT_STRING
    case _ => WT_VARINT
  }

  function FieldTag(f: Field): seq<byte> {
    EncTag(WireType(f.ltype), f.tag)
  }

  /** Length of the string in a char array, at most the array */
  function StrLen(buf: seq<byte>): (n: nat)
    ensures n <= |buf|
    ensures forall k | 0 <= k < n :: buf[k] != 0
    ensures n < |buf| ==> buf[n] == 0
  {
    if buf == [] || buf[0] == 0 then 0 else 1 + StrLen(buf[1..])
  }

  // ---- pb_check_proto3_default_value ----

  predicate IsDefault(f: Field, c: Cell)
    decreases f, 0
  {
    match f.htype
    case Required => false
    case Repeated => c.Arr? && c.count == 0 && f.sizeOffset != 0
    case Oneof => c.Union? && c.which == 0
    case Optional =>
      if f.sizeOffset != 0 then c.Opt? && !c.has
      else
        var v := CellValue(c);
        match f.ltype
        case LBool => !BoolOf(v)
        case LBytes => BytesOf(v) == []
        case LString => StrLen(BytesOf(v)) == 0
        case LFixedBytes => f.dataSize == 0
        case LSubmessage => f.ptr.Sub? ==> AllDefault(f.ptr.fields, CellsOf(v), 0)
        case _ => NumOf(v) == 0
  }

  predicate AllDefault(fields: seq<Field>, cells: seq<Cell>, i: nat)
    decreases fields, |fields| - i
  {
    i < |fields| ==>
      IsDefault(fields[i], CellAt(cells, Slot(fields, i))) && AllDefault(fields, cells, i + 1)
  }

  // ---- Values, arrays, fields, messages ----

  function EncValue(f: Field, v: Value): Option<seq<byte>>
    decreases f, 0, 0
  {
    match f.ltype
    case LBool => Some(EncVarint(if BoolOf(v) then 1 else 0))
    case LVarint => if IntSize(f.dataSize) then Some(EncVarint(NumOf(v) % U64)) else None
    case LUvarint => if IntSize(f.dataSize) then Some(EncVarint(NatOf(v))) else None
    case LSvarint => if IntSize(f.dataSize) then Some(EncVarint(Zigzag(NumOf(v)))) else None
    case LFixed32 => Some(EncFixed32(NatOf(v)))
    case LFixed64 => Some(EncFixed64(NatOf(v)))
    case LBytes =>
      if |BytesOf(v)| + BYTES_HEADER > f.dataSize then None else Some(EncString(BytesOf(v)))
    case LString => Some(EncString(BytesOf(v)[..StrLen(BytesOf(v))]))
    case LFixedBytes => Some(EncString(BytesOf(v)))
    case LSubmessage => if f.ptr.Sub? then Prefixed(EncFields(f.ptr.fields, CellsOf(v), 0)) else None
  }

  /** The values of a packed array, one after another */
  function EncItems(f: Field, items: seq<Value>): Option<seq<byte>>
    decreases f, 1, |items|
  {
    if items == [] then Some([]) else Cat(EncValue(f, items[0]), EncItems(f, items[1..]))
  }

  /** An array with a tag before each value */
  function EncTagged(f: Field, items: seq<Value>): Option<seq<byte>>
    decreases f, 1, |items|
  {
    if items == [] then Some([])
    else Cat(Cat(Some(FieldTag(f)), EncValue(f, items[0])), EncTagged(f, items[1..]))
  }

  function EncPacked(f: Field, items: seq<Value>): Option<seq<byte>>
    decreases f, 2
  {
    Cat(Some(EncTag(WT_STRING, f.tag)), Prefixed(EncItems(f, items)))
  }

  function EncArray(f: Field, items: seq<Value>, count: nat): Option<seq<byte>>
    decreases f, 3
  {
    if count == 0 then Some([])
    else if count > f.arraySize || count > |items| then None
    else if f.Packable() then EncPacked(f, items[..count])
    else EncTagged(f, items[..count])
  }

  function EncSingle(f: Field, v: Value): Option<seq<byte>>
    decreases f, 1
  {
    Cat(Some(FieldTag(f)), EncValue(f, v))
  }

  /** Whether an optional or singular field is sent */
  predicate IsSent(f: Field, c: Cell) {
    if f.sizeOffset != 0 then c.Opt? && c.has else !IsDefault(f, c)
  }

  /** encode_basic_field */
  function EncField(f: Field, c: Cell): Option<seq<byte>>
    decreases f, 4
  {
    match f.htype
    case Required => EncSingle(f, CellValue(c))
    case Optional => if IsSent(f, c) then EncSingle(f, CellValue(c)) else Some([])
    case Repeated =>
      EncArray(f, CellItems(c), if f.sizeOffset == 0 then f.arraySize else if c.Arr? then c.count else 0)
    case Oneof => if c.Union? && c.which == f.tag then EncSingle(f, CellValue(c)) else Some([])
  }

  /** The fields from position i on */
  function EncFields(fields: seq<Field>, cells: seq<Cell>, i: nat): Option<seq<byte>>
    decreases fields, |fields| - i
  {
    if i >= |fields| then Some([])
    else Cat(EncField(fields[i], CellAt(cells, Slot(fields, i))), EncFields(fields, cells, i + 1))
  }

  /** pb_encode */
  function EncMessage(fields: seq<Field>, cells: seq<Cell>): Option<seq<byte>> {
    EncFields(fields, cells, 0)
  }

  /** pb_encode_delimited */
  function EncDelimited(fields: seq<Field>, cells: seq<Cell>): Option<seq<byte>> {
    Prefixed(EncMessage(fields, cells))
  }

  /** pb_encode_nullterminated */
  function EncNullTerminated(fields: seq<Field>, cells: seq<Cell>): Option<seq<byte>> {
    Cat(EncMessage(fields, cells), Some([0]))
  }
}
