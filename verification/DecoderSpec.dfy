/**
  What pb_decode.c makes of a window of bytes, as functions. Every reader returns the bytes it
  left; termination is by the length of the window, whatever the descriptors.
 */
module DecoderSpec {
  import opened Words
  import opened Wire
  import opened Descriptors
  import opened GoodStructs

  // ---- Default values ----

  function Zeros(n: nat): (r: seq<byte>)
    ensures |r| == n
    ensures forall k | 0 <= k < n :: r[k] == 0
  {
    seq(n, _ => 0)
  }

  /** What a field holds after memset to zero */
  function ZeroValue(f: Field): Value
    decreases f, 0
  {
    match f.ltype
    case LBool => VBool(false)
    case LBytes => VBytes([])
    case LString => VString(Zeros(f.dataSize))
    case LFixedBytes => VFixed(Zeros(f.dataSize))
    case LSubmessage => VMsg(if f.ptr.Sub? then ZeroCells(f.ptr.fields, |f.ptr.fields|) else [])
    case _ => VNum(0)
  }

  function ZeroCell(f: Field): Cell
    decreases f, 1
  {
    var zero := ZeroValue(f);
    match f.htype
    case Required => One(zero)
    case Optional => if f.sizeOffset != 0 then Opt(false, zero) else One(zero)
    case Repeated =>
      if f.sizeOffset != 0 then Arr(0, seq(f.arraySize, _ => zero)) else Fix(seq(f.arraySize, _ => zero))
    case Oneof => Union(0, zero)
  }

  /** The cells of the first n fields, all zero */
  function ZeroCells(fields: seq<Field>, n: nat): seq<Cell>
    requires n <= |fields|
    decreases fields, n
  {
    if n == 0 then []
    else if n > 1 && SameUnion(fields[n - 2], fields[n - 1]) then ZeroCells(fields, n - 1)
    else ZeroCells(fields, n - 1) + [ZeroCell(fields[n - 1])]
  }

  /**
    What writing a zero counter to the start of an array leaves of its elements. This depends on
    the representation of the elements; those behind the counter's bytes stay.
   */
  ghost predicate StartZeroed(f: Field, before: seq<Value>, after: seq<Value>) {
    && |after| == |before|
    && (forall k | 0 <= k < |before| && k * f.dataSize >= BYTES_HEADER :: after[k] == before[k])
    && (forall k | 0 <= k < |before| && ValueShape(f, before[k]) :: ValueShape(f, after[k]))
    && (forall k | 0 <= k < |before| && GoodValue(f, before[k], true) :: GoodValue(f, after[k], true))
    && ((forall k | 0 <= k < |before| :: before[k] == ZeroValue(f)) ==> after == before)
  }

  ghost predicate ZeroesStart(g: (Field, seq<Value>) -> seq<Value>) {
    forall f, items {:trigger StartZeroed(f, items, g(f, items))} :: StartZeroed(f, items, g(f, items))
  }

  function Unchanged(f: Field, items: seq<Value>): seq<Value> {
    items
  }

  type StartZeroing = g: (Field, seq<Value>) -> seq<Value> | ZeroesStart(g) witness Unchanged
  const ZERO_START: StartZeroing

  function InitialValue(f: Field, prior: Value): Value
    decreases f, 0
  {
    if f.ltype.LSubmessage? then
      (if f.ptr.Sub? then VMsg(SetDefaultsFrom(f.ptr.fields, CellsOf(prior), 0)) else prior)
    else if f.ptr.Default? then f.ptr.value
    else ZeroValue(f)
  }

  /** pb_field_set_to_default */
  function SetDefault(f: Field, c: Cell): Cell
    decreases f, 1
  {
    match f.htype
    case Required => One(InitialValue(f, CellValue(c)))
    case Optional =>
      var v := InitialValue(f, CellValue(c));
      if f.sizeOffset != 0 then Opt(false, v) else One(v)
    case Repeated => if f.sizeOffset != 0 then Arr(0, CellItems(c)) else Fix(ZERO_START(f, CellItems(c)))
    case Oneof => Union(0, CellValue(c))
  }

  function SetDefaultsFrom(fields: seq<Field>, cells: seq<Cell>, i: nat): (r: seq<Cell>)
    ensures |r| == |cells|
    decreases fields, |fields| - i
  {
    if i >= |fields| then cells
    else
      var s := Slot(fields, i);
      SetDefaultsFrom(fields, WithCell(cells, s, SetDefault(fields[i], CellAt(cells, s))), i + 1)
  }

  /** pb_message_set_to_defaults */
  function SetDefaults(fields: seq<Field>, cells: seq<Cell>): (r: seq<Cell>)
    ensures |r| == |cells|
  {
    SetDefaultsFrom(fields, cells, 0)
  }

  /** A union just switched to a submessage: memset, then defaults */
  function FreshMessage(fields: seq<Field>): seq<Cell> {
    SetDefaults(fields, ZeroCells(fields, |fields|))
  }

  // ---- Values ----

  function MapOk<S, T>(p: Parsed<S>, make: S -> T): (r: Parsed<T>)
    ensures r.Ok? <==> p.Ok?
    ensures r.Ok? ==> r.rest == p.rest && r.val == make(p.val)
  {
    if p.Ok? then Ok(make(p.val), p.rest) else Bad
  }

  /** The char array after data and a terminator were written over its start */
  function WriteString(prior: Value, data: seq<byte>, size: nat): seq<byte>
    requires |data| < size
  {
    var tail := if prior.VString? && |prior.buf| == size then prior.buf else Zeros(size);
    data + [0] + tail[|data| + 1..]
  }

  /** pb_dec_bytes; a 32-bit length cannot overflow the 64-bit allocation size */
  function DecBytes(f: Field, bs: seq<byte>): (r: Parsed<Value>)
    ensures r.Ok? ==> |r.rest| < |bs|
  {
    match DecVarint32(bs)
    case Bad => Bad
    case Ok(size, rest) =>
      if size > PB_SIZE_MAX || size + BYTES_HEADER > f.dataSize then Bad
      else MapOk(Take(rest, size), data => VBytes(data))
  }

  /** pb_dec_string; the sum size + 1 is computed in 32 bits */
  function DecChars(f: Field, bs: seq<byte>, prior: Value): (r: Parsed<Value>)
    ensures r.Ok? ==> |r.rest| < |bs|
  {
    match DecVarint32(bs)
    case Bad => Bad
    case Ok(size, rest) =>
      var allocSize := (size + 1) % U32;
      if allocSize < size || allocSize > f.dataSize || |rest| < size then Bad
      else Ok(VString(WriteString(prior, rest[..size], f.dataSize)), rest[size..])
  }

  /** pb_dec_fixed_length_bytes; an empty string stands for all zeros */
  function DecFixedBytes(f: Field, bs: seq<byte>): (r: Parsed<Value>)
    ensures r.Ok? ==> |r.rest| < |bs|
  {
    match DecVarint32(bs)
    case Bad => Bad
    case Ok(size, rest) =>
      if size > PB_SIZE_MAX then Bad
      else if size == 0 then Ok(VFixed(Zeros(f.dataSize)), rest)
      else if size != f.dataSize then Bad
      else MapOk(Take(rest, size), data => VFixed(data))
  }

  /** The decoder of field f, applied to storage holding prior */
  function DecValue(f: Field, bs: seq<byte>, prior: Value): (r: Parsed<Value>)
    ensures r.Ok? ==> |r.rest| < |bs|
    decreases |bs|, 0
  {
    match f.ltype
    case LBool => MapOk(DecVarint32(bs), n => VBool(n != 0))
    case LVarint => MapOk(DecSignedField(f.dataSize, bs), i => VNum(i))
    case LUvarint => MapOk(DecUnsignedField(f.dataSize, bs), i => VNum(i))
    case LSvarint => MapOk(DecZigzagField(f.dataSize, bs), i => VNum(i))
    case LFixed32 => MapOk(DecFixed32(bs), n => VNum(n))
    case LFixed64 => MapOk(DecFixed64(bs), n => VNum(n))
    case LBytes => DecBytes(f, bs)
    case LString => DecChars(f, bs, prior)
    case LFixedBytes => DecFixedBytes(f, bs)
    case LSubmessage =>
      match DecString(bs)
      case Bad => Bad
      case Ok(window, rest) =>
        if !f.ptr.Sub? then Bad
        else
          var cells := if f.htype.Repeated? then SetDefaults(f.ptr.fields, CellsOf(prior)) else CellsOf(prior);
          match DecMessage(f.ptr.fields, window, cells)
          case Bad => Bad
          case Ok(cells', _) => Ok(VMsg(cells'), rest)
  }

  /** The loop over a packed array: element n onwards is filled until the window is used up. */
  function DecItems(f: Field, window: seq<byte>, n: nat, items: seq<Value>): Parsed<(nat, seq<Value>)>
    decreases |window|, 1
  {
    if window == [] then Ok((n, items), [])
    else if n >= f.arraySize then Bad
    else
      match DecValue(f, window, ItemAt(items, n))
      case Bad => Bad
      case Ok(v, rest) => DecItems(f, rest, n + 1, WithItem(items, n, v))
  }

  /** decode_static_field for an array; n elements are there already. */
  function DecArray(f: Field, wt: nat, bs: seq<byte>, n: nat, items: seq<Value>): (r: Parsed<(nat, seq<Value>)>)
    ensures r.Ok? ==> |r.rest| < |bs|
    decreases |bs|, 2
  {
    if wt == WT_STRING && f.Packable() then
      match DecString(bs)
      case Bad => Bad
      case Ok(window, rest) =>
        match DecItems(f, window, n, items)
        case Bad => Bad
        case Ok(result, _) => Ok(result, rest)
    else if n >= f.arraySize then Bad
    else
      match DecValue(f, bs, ItemAt(items, n))
      case Bad => Bad
      case Ok(v, rest) => Ok((n + 1, WithItem(items, n, v)), rest)
  }

  /** The storage a oneof member is decoded into */
  function OneofTarget(f: Field, c: Cell): Value {
    if f.ltype.LSubmessage? then VMsg(FreshMessage(f.SubFields())) else CellValue(c)
  }

  /** decode_static_field; fixedSize counts the elements of a fixed-count array. */
  function DecCell(f: Field, wt: nat, bs: seq<byte>, c: Cell, fixedSize: nat): (r: Parsed<(Cell, nat)>)
    ensures r.Ok? ==> |r.rest| < |bs|
    decreases |bs|, 3
  {
    match f.htype
    case Required => MapOk(DecValue(f, bs, CellValue(c)), v => (One(v), fixedSize))
    case Optional =>
      MapOk(DecValue(f, bs, CellValue(c)), v => (if f.sizeOffset != 0 then Opt(true, v) else One(v), fixedSize))
    case Repeated =>
      if f.sizeOffset != 0 then
        MapOk(DecArray(f, wt, bs, if c.Arr? then c.count else 0, CellItems(c)),
              (r: (nat, seq<Value>)) => (Arr(r.0, r.1), fixedSize))
      else
        MapOk(DecArray(f, wt, bs, fixedSize, CellItems(c)), (r: (nat, seq<Value>)) => (Fix(r.1), r.0))
    case Oneof => MapOk(DecValue(f, bs, OneofTarget(f, c)), v => (Union(f.tag, v), fixedSize))
  }

  // ---- The main loop ----

  /**
    The variables of pb_decode_noinit: the struct, the indices of the required fields seen, and
    the fixed-count array being received with the number of its elements so far.
   */
  datatype State = State(cells: seq<Cell>, seen: set<nat>, fixedField: Option<nat>, fixedSize: nat)

  function Start(cells: seq<Cell>): State {
    State(cells, {}, None, 0)
  }

  predicate FixedComplete(fields: seq<Field>, st: State) {
    st.fixedField.Some? ==> st.fixedSize == FieldAt(fields, st.fixedField.value).arraySize
  }

  /** Turning to field i: a fixed-count array left for another one must be complete. */
  function Turn(fields: seq<Field>, i: nat, st: State): Option<State> {
    if !FieldAt(fields, i).FixedCount() || st.fixedField == Some(i) then Some(st)
    else if !FixedComplete(fields, st) then None
    else Some(st.(fixedField := Some(i), fixedSize := 0))
  }

  function Mark(fields: seq<Field>, i: nat, seen: set<nat>): set<nat> {
    var index := RequiredBefore(fields, i);
    if FieldAt(fields, i).htype.Required? && index < PB_MAX_REQUIRED_FIELDS then seen + {index} else seen
  }

  function DecKnown(fields: seq<Field>, i: nat, wt: nat, bs: seq<byte>, st: State): (r: Parsed<State>)
    ensures r.Ok? ==> |r.rest| < |bs|
    decreases |bs|, 4
  {
    match Turn(fields, i, st)
    case None => Bad
    case Some(st1) =>
      var s := Slot(fields, i);
      match DecCell(FieldAt(fields, i), wt, bs, CellAt(st1.cells, s), st1.fixedSize)
      case Bad => Bad
      case Ok((c, n), rest) =>
        Ok(State(WithCell(st1.cells, s, c), Mark(fields, i, st1.seen), st1.fixedField, n), rest)
  }

  /** One field, known or unknown, after its tag */
  function DecField(fields: seq<Field>, wt: nat, tag: nat, bs: seq<byte>, st: State): (r: Parsed<State>)
    ensures r.Ok? ==> |r.rest| < |bs|
    decreases |bs|, 5
  {
    match Lookup(fields, tag)
    case Some(i) => DecKnown(fields, i, wt, bs, st)
    case None => if SkipField(wt, bs).Ok? then Ok(st, SkipField(wt, bs).rest) else Bad
  }

  function DecFields(fields: seq<Field>, bs: seq<byte>, st: State): (r: Parsed<State>)
    ensures r.Ok? ==> |r.rest| <= |bs|
    decreases |bs|, 6
  {
    if bs == [] then Ok(st, bs)
    else
      match DecTag(bs)
      case TagError => Bad
      case End(rest) => Ok(st, rest)
      case Tag(wt, tag, rest) =>
        match DecField(fields, wt, tag, rest, st)
        case Bad => Bad
        case Ok(st', rest') => DecFields(fields, rest', st')
  }

  function RequiredTracked(fields: seq<Field>): nat {
    var n := RequiredBefore(fields, |fields|);
    if n > PB_MAX_REQUIRED_FIELDS then PB_MAX_REQUIRED_FIELDS else n
  }

  predicate RequiredPresent(fields: seq<Field>, seen: set<nat>) {
    forall k: nat | k < RequiredTracked(fields) :: k in seen
  }

  /** pb_decode_noinit */
  function DecMessage(fields: seq<Field>, bs: seq<byte>, cells: seq<Cell>): (r: Parsed<seq<Cell>>)
    ensures r.Ok? ==> |r.rest| <= |bs|
    decreases |bs|, 7
  {
    match DecFields(fields, bs, Start(cells))
    case Bad => Bad
    case Ok(st, rest) =>
      if FixedComplete(fields, st) && RequiredPresent(fields, st.seen) then Ok(st.cells, rest) else Bad
  }

  /** pb_decode */
  function Decode(fields: seq<Field>, bs: seq<byte>, cells: seq<Cell>): (r: Parsed<seq<Cell>>)
    ensures r.Ok? ==> |r.rest| <= |bs|
  {
    DecMessage(fields, bs, SetDefaults(fields, cells))
  }

  /** pb_decode_delimited, and with init false pb_decode_delimited_noinit */
  function DecDelimited(fields: seq<Field>, bs: seq<byte>, cells: seq<Cell>, init: bool): (r: Parsed<seq<Cell>>)
    ensures r.Ok? ==> |r.rest| < |bs|
  {
    match DecString(bs)
    case Bad => Bad
    case Ok(window, rest) =>
      match if init then Decode(fields, window, cells) else DecMessage(fields, window, cells)
      case Bad => Bad
      case Ok(cells', _) => Ok(cells', rest)
  }
}
