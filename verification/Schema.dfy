/** Field descriptors (pb_field_t) and the abstract contents of the C structs they describe. */
module Schema {
  import opened Varints

  /** (pb_size_t)-1, as built here: with 32-bit descriptor fields. */
  const PB_SIZE_MAX := 0xFFFF_FFFF

  /** offsetof(pb_bytes_array_t, bytes): the size in front of the data of a BYTES field. */
  const BYTES_OFFSET := 4

  const MAX_REQUIRED_FIELDS := 64

  datatype LType =
    | BOOL | VARINT | UVARINT | SVARINT | FIXED32 | FIXED64
    | BYTES | STRING | SUBMESSAGE | FIXED_LENGTH_BYTES
  {
    /** Up to LAST_PACKABLE. */
    predicate Packable() {
      BOOL? || VARINT? || UVARINT? || SVARINT? || FIXED32? || FIXED64?
    }
  }

  datatype HType = REQUIRED | OPTIONAL | REPEATED | ONEOF

  /** What the untyped pointer of a descriptor stands for. */
  datatype Ptr = Null | Default(value: Value) | Submessage(fields: seq<Field>)

  datatype Field = Field(
    tag: nat, ltype: LType, htype: HType,
    dataOffset: nat, sizeOffset: int, dataSize: nat, arraySize: nat, ptr: Ptr)
  {
    /** A repeated field without a count in the struct. */
    predicate FixedCount() {
      htype.REPEATED? && sizeOffset == 0
    }
  }

  /** One value: an integer, a character or byte buffer up to its size, or a nested struct.
    * A STRING holds what was stored before the final NUL. */
  datatype Value = Number(n: int) | Chars(bs: seq<byte>) | Message(cells: seq<Cell>)

  /** The storage of one field. Members of a union share the cell of the first member; a cell `Shared`
    * stands in for each of the others. A field without a has flag has `has` set. The items of a
    * fixed-count array are those received so far: the rest of the array is unspecified memory. */
  datatype Cell =
    | Single(has: bool, value: Value)
    | Many(items: seq<Value>)
    | NoneOf
    | OneOf(which: nat, value: Value)
    | Shared

  // ----- where a field lives -----

  /** The test by which the iterator does not advance inside a union. */
  predicate SharesUnion(prev: Field, next: Field) {
    prev.htype.ONEOF? && next.htype.ONEOF? && next.dataOffset == PB_SIZE_MAX
  }

  predicate Continues(fields: seq<Field>, i: nat)
    requires i < |fields|
  {
    i > 0 && SharesUnion(fields[i - 1], fields[i])
  }

  /** The index of the cell that field i uses. */
  function Home(fields: seq<Field>, i: nat): (h: nat)
    requires i < |fields|
    ensures h <= i
    ensures h < i ==> fields[i].htype.ONEOF? && fields[h].htype.ONEOF?
    ensures !Continues(fields, h)
  {
    if Continues(fields, i) then Home(fields, i - 1) else i
  }

  // ----- what a descriptor list must look like -----

  ghost predicate WellFormed(fields: seq<Field>)
    decreases fields
  {
    && (forall i, j | 0 <= i < j < |fields| :: fields[i].tag != fields[j].tag)
    && UnionsAgree(fields)
    && forall i | 0 <= i < |fields| :: WellFormedField(fields[i])
  }

  /** The members of a union have the same selector. */
  predicate UnionsAgree(fields: seq<Field>) {
    forall i {:trigger Continues(fields, i)} | 0 <= i < |fields| ::
      Continues(fields, i) ==> fields[i].sizeOffset == fields[i - 1].sizeOffset
  }

  ghost predicate WellFormedField(f: Field)
    decreases f
  {
    && 1 <= f.tag < 0x2000_0000
    && f.dataSize <= PB_SIZE_MAX && f.arraySize <= PB_SIZE_MAX
    && (f.htype.REQUIRED? ==> f.sizeOffset == 0)
    && (f.htype.REPEATED? ==> f.arraySize >= 1)
    && (f.htype.ONEOF? ==> f.sizeOffset != 0)
    && (match f.ltype
        case BOOL => f.dataSize == 1
        case VARINT | UVARINT | SVARINT => f.dataSize in {1, 2, 4, 8}
        case FIXED32 => f.dataSize == 4
        case FIXED64 => f.dataSize == 8
        case BYTES => f.dataSize >= BYTES_OFFSET
        case STRING => f.dataSize >= 1
        case SUBMESSAGE => true
        case FIXED_LENGTH_BYTES => true)
    && (if f.ltype.SUBMESSAGE? then f.ptr.Submessage? && WellFormed(f.ptr.fields)
        else f.ptr.Null? || (f.ptr.Default? && ValidValue(f, f.ptr.value)))
  }

  // ----- what a struct must look like -----

  /** Half the number of values of an integer of the given size. */
  function Half(size: nat): (h: int)
    ensures h > 0
  {
    if size == 1 then 0x80 else if size == 2 then 0x8000
    else if size == 4 then 0x8000_0000 else 0x8000_0000_0000_0000
  }

  predicate ValidNumber(ltype: LType, size: nat, n: int)
    requires ltype.Packable()
  {
    match ltype
    case BOOL => n == 0 || n == 1
    case VARINT | SVARINT => -Half(size) <= n < Half(size)
    case UVARINT => 0 <= n < 2 * Half(size)
    case FIXED32 => 0 <= n < TWO_32
    case FIXED64 => 0 <= n < TWO_64
  }

  ghost predicate ValidValue(f: Field, v: Value)
    decreases f, 0
  {
    match f.ltype
    case BYTES => v.Chars? && |v.bs| + BYTES_OFFSET <= f.dataSize
    case STRING => v.Chars? && |v.bs| + 1 <= f.dataSize
    case FIXED_LENGTH_BYTES => v.Chars? && |v.bs| == f.dataSize
    case SUBMESSAGE => v.Message? && f.ptr.Submessage? && Valid(f.ptr.fields, v.cells)
    case _ => v.Number? && ValidNumber(f.ltype, f.dataSize, v.n)
  }

  ghost predicate ValidCell(f: Field, c: Cell)
    decreases f, 1
  {
    match f.htype
    case REQUIRED => c.Single? && c.has && ValidValue(f, c.value)
    case OPTIONAL => c.Single? && (f.sizeOffset == 0 ==> c.has) && ValidValue(f, c.value)
    case REPEATED => c.Many? && |c.items| <= f.arraySize && forall k | 0 <= k < |c.items| :: ValidValue(f, c.items[k])
    case ONEOF => c.NoneOf? || (c.OneOf? && c.which != 0 && (c.which == f.tag ==> ValidValue(f, c.value)))
  }

  /** The struct matches its descriptors: counts, sizes and numbers are within their limits. */
  ghost predicate Valid(fields: seq<Field>, cells: seq<Cell>)
    decreases fields
  {
    && |cells| == |fields|
    && (forall i {:trigger Continues(fields, i)} | 0 <= i < |fields| :: Continues(fields, i) ==> cells[i].Shared?)
    && forall i {:trigger Home(fields, i)} | 0 <= i < |fields| :: ValidCell(fields[i], cells[Home(fields, i)])
  }

  // ----- default values -----

  function Zeros(n: nat): seq<byte> {
    seq(n, _ => 0)
  }

  function ZeroValue(f: Field): Value {
    match f.ltype
    case BYTES => Chars([])
    case STRING => Chars([])
    case FIXED_LENGTH_BYTES => Chars(Zeros(f.dataSize))
    case SUBMESSAGE => Message([])
    case _ => Number(0)
  }

  function DefaultValue(f: Field): Value
    decreases f, 0
  {
    match f.ptr
    case Submessage(sub) => Message(Defaults(sub))
    case Default(v) => v
    case Null => ZeroValue(f)
  }

  function DefaultCell(f: Field): Cell
    decreases f, 1
  {
    match f.htype
    case REQUIRED => Single(true, DefaultValue(f))
    case OPTIONAL => Single(f.sizeOffset == 0, DefaultValue(f))
    case REPEATED => Many([])
    case ONEOF => NoneOf
  }

  /** What pb_message_set_to_defaults leaves behind. */
  function Defaults(fields: seq<Field>): (cells: seq<Cell>)
    ensures |cells| == |fields|
    decreases fields
  {
    seq(|fields|, i requires 0 <= i < |fields| => if Continues(fields, i) then Shared else DefaultCell(fields[i]))
  }

  /** The value a union member is decoded into: its old value if it is the selected one. */
  function Selected(f: Field, c: Cell): Value {
    if c.OneOf? && c.which == f.tag then c.value else DefaultValue(f)
  }

  lemma {:induction false} DefaultsValid(fields: seq<Field>)
    requires WellFormed(fields)
    ensures Valid(fields, Defaults(fields))
    decreases fields
  {
    forall i | 0 <= i < |fields|
      ensures ValidCell(fields[i], Defaults(fields)[Home(fields, i)])
    {
      if Home(fields, i) == i {
        DefaultValueValid(fields[i]);
      }
    }
  }

  lemma {:induction false} DefaultValueValid(f: Field)
    requires WellFormedField(f)
    ensures ValidValue(f, DefaultValue(f))
    decreases f
  {
    if f.ltype.SUBMESSAGE? {
      DefaultsValid(f.ptr.fields);
    }
  }
}
